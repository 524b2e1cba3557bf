// Readers and writers with different versions of a struct: what a reader makes of fields it does
// not know, of fields in another order and of fields that are missing.
module ThriftTolerance {
  import opened Options
  import opened ThriftWire
  import opened ThriftCodec

  // ---------- fields the switch does not know ----------

  function Known(fs: seq<Field>, ws: seq<WireField>): seq<WireField>
  {
    if ws == [] then []
    else if Relevant(fs, ws[0]) then [ws[0]] + Known(fs, ws[1..])
    else Known(fs, ws[1..])
  }

  // Fields with an unknown number or the wrong type change nothing, wherever they stand.
  lemma {:induction false} UnknownFieldsAreSkipped(fs: seq<Field>, slots: seq<Option<Val>>, seen: set<nat>,
          ws: seq<WireField>)
    requires |slots| == |fs|
    ensures DecodeFields(fs, slots, seen, ws) == DecodeFields(fs, slots, seen, Known(fs, ws))
    decreases |ws|
  {
    hide DecodeField, Relevant;
    if ws == [] {
    } else {
      if Relevant(fs, ws[0]) {
        var i := FieldIndex(fs, ws[0].fid);
        assert i < |fs| by {
          RelevantHasIndex(fs, ws[0]);
        }
        var v := DecodeField(fs[i], slots[i], ws[0].value);
        if v.Good? {
          UnknownFieldsAreSkipped(fs, slots[i := Some(v.value)], seen + {i}, ws[1..]);
        }
      } else {
        UnknownFieldsAreSkipped(fs, slots, seen, ws[1..]);
      }
    }
  }

  lemma RelevantHasIndex(fs: seq<Field>, f: WireField)
    requires Relevant(fs, f)
    ensures FieldIndex(fs, f.fid) < |fs|
  {
  }

  // ---------- what was in the object before does not decide about success ----------

  ghost predicate SameError<T, U>(a: Outcome<T>, b: Outcome<U>)
  {
    a.Good? == b.Good? && (a.Bad? ==> b == Bad(a.err))
  }

  lemma {:induction false} SuccessIgnoresPrior(sh: Shape, p: Option<Val>, q: Option<Val>, w: Wire)
    ensures SameError(Decode(sh, p, w), Decode(sh, q, w))
    decreases sh, 0
  {
    hide DecodeFields, SlotsOf;
    if sh.StructOf? && w.Fields? {
      FieldsIgnorePrior(sh.fields, SlotsOf(sh.fields, p), SlotsOf(sh.fields, q), {}, w.fields);
    }
  }

  lemma FieldIgnoresPrior(f: Field, p: Option<Val>, q: Option<Val>, w: Wire)
    ensures SameError(DecodeField(f, p, w), DecodeField(f, q, w))
    decreases f, 0
  {
    SuccessIgnoresPrior(f.shape, p, q, w);
  }

  lemma {:induction false} FieldsIgnorePrior(fs: seq<Field>, s: seq<Option<Val>>, t: seq<Option<Val>>, seen: set<nat>,
          ws: seq<WireField>)
    requires |s| == |t| == |fs|
    ensures SameError(DecodeFields(fs, s, seen, ws), DecodeFields(fs, t, seen, ws))
    decreases fs, 1 + |ws|
  {
    hide DecodeField;
    if ws == [] {
    } else {
      if Relevant(fs, ws[0]) {
        var i := FieldIndex(fs, ws[0].fid);
        FieldIgnoresPrior(fs[i], s[i], t[i], ws[0].value);
        var v, u := DecodeField(fs[i], s[i], ws[0].value), DecodeField(fs[i], t[i], ws[0].value);
        if v.Good? {
          FieldsIgnorePrior(fs, s[i := Some(v.value)], t[i := Some(u.value)], seen + {i}, ws[1..]);
        }
      } else {
        FieldsIgnorePrior(fs, s, t, seen, ws[1..]);
      }
    }
  }

  // ---------- required fields ----------

  // Every field the switch knows has a readable value.
  ghost predicate NestedGood(fs: seq<Field>, ws: seq<WireField>)
  {
    ws != [] ==>
      && (Relevant(fs, ws[0]) ==> DecodeField(fs[FieldIndex(fs, ws[0].fid)], None, ws[0].value).Good?)
      && NestedGood(fs, ws[1..])
  }

  // Field i occurs with its declared type.
  ghost predicate Occurs(fs: seq<Field>, ws: seq<WireField>, i: nat)
  {
    exists k :: 0 <= k < |ws| && Relevant(fs, ws[k]) && FieldIndex(fs, ws[k].fid) == i
  }

  lemma OccursSplits(fs: seq<Field>, ws: seq<WireField>, i: nat)
    requires ws != []
    ensures Occurs(fs, ws, i) <==> (Relevant(fs, ws[0]) && FieldIndex(fs, ws[0].fid) == i) || Occurs(fs, ws[1..], i)
  {
    if Occurs(fs, ws[1..], i) {
      var k :| 0 <= k < |ws[1..]| && Relevant(fs, ws[1..][k]) && FieldIndex(fs, ws[1..][k].fid) == i;
      assert ws[k + 1] == ws[1..][k];
    }
    if Occurs(fs, ws, i) {
      var k :| 0 <= k < |ws| && Relevant(fs, ws[k]) && FieldIndex(fs, ws[k].fid) == i;
      assert k > 0 ==> ws[k] == ws[1..][k - 1];
    }
  }

  ghost predicate Complete(fs: seq<Field>, seen: set<nat>, ws: seq<WireField>)
  {
    forall i :: 0 <= i < |fs| && fs[i].required ==> i in seen || Occurs(fs, ws, i)
  }

  // When the nested values are readable, INVALID_DATA is raised exactly when some required field
  // never occurs with its declared type, whatever else occurs, how often and in which order.
  lemma {:induction false} InvalidDataExactly(fs: seq<Field>, slots: seq<Option<Val>>, seen: set<nat>,
          ws: seq<WireField>)
    requires |slots| == |fs| && NestedGood(fs, ws)
    ensures var r := DecodeFields(fs, slots, seen, ws);
            if Complete(fs, seen, ws) then r.Good? else r == Bad(InvalidData)
    decreases |ws|
  {
    hide DecodeField, Occurs, Relevant;
    if ws == [] {
      forall i: nat ensures !Occurs(fs, ws, i) {
        NothingOccurs(fs, i);
      }
    } else {
      forall i: nat
        ensures Occurs(fs, ws, i) <==> (Relevant(fs, ws[0]) && FieldIndex(fs, ws[0].fid) == i) || Occurs(fs, ws[1..], i)
      {
        OccursSplits(fs, ws, i);
      }
      if Relevant(fs, ws[0]) {
        RelevantHasIndex(fs, ws[0]);
        var i := FieldIndex(fs, ws[0].fid);
        FieldIgnoresPrior(fs[i], None, slots[i], ws[0].value);
        var v := DecodeField(fs[i], slots[i], ws[0].value);
        InvalidDataExactly(fs, slots[i := Some(v.value)], seen + {i}, ws[1..]);
        assert Complete(fs, seen + {i}, ws[1..]) <==> Complete(fs, seen, ws);
      } else {
        InvalidDataExactly(fs, slots, seen, ws[1..]);
        assert Complete(fs, seen, ws[1..]) <==> Complete(fs, seen, ws);
      }
    }
  }

  lemma NothingOccurs(fs: seq<Field>, i: nat)
    ensures !Occurs(fs, [], i)
  {
  }

  // ---------- order ----------

  // No field occurs twice with its declared type.
  ghost predicate Distinct(fs: seq<Field>, ws: seq<WireField>)
  {
    forall a, b :: 0 <= a < b < |ws| && Relevant(fs, ws[a]) && Relevant(fs, ws[b]) ==> ws[a].fid != ws[b].fid
  }

  // The value that field number fid occurs with
  function Occurrence(fs: seq<Field>, ws: seq<WireField>, fid: int): Option<Wire>
  {
    if ws == [] then None
    else if Relevant(fs, ws[0]) && ws[0].fid == fid then Some(ws[0].value)
    else Occurrence(fs, ws[1..], fid)
  }

  lemma {:induction false} OccurrenceIsMember(fs: seq<Field>, ws: seq<WireField>, fid: int, w: Wire)
    requires Distinct(fs, ws)
    ensures Occurrence(fs, ws, fid) == Some(w) <==> WireField(fid, w) in ws && Relevant(fs, WireField(fid, w))
    decreases |ws|
  {
    hide Relevant;
    if ws == [] {
    } else {
      assert forall k :: 0 <= k < |ws| - 1 ==> ws[1..][k] == ws[k + 1];
      OccurrenceIsMember(fs, ws[1..], fid, w);
      var f := WireField(fid, w);
      if f in ws[1..] {
        var k :| 0 <= k < |ws[1..]| && ws[1..][k] == f;
        assert ws[k + 1] == f;
      }
      assert f in ws <==> f == ws[0] || f in ws[1..];
    }
  }

  // A fresh slot after all the fields: the decoding of its own occurrence, if there is one.
  function SlotFor(fs: seq<Field>, i: nat, before: Option<Val>, ws: seq<WireField>): Option<Val>
    requires i < |fs|
  {
    match Occurrence(fs, ws, fs[i].fid)
    case None => before
    case Some(w) => (match DecodeField(fs[i], None, w) case Good(v) => Some(v) case Bad(_) => None)
  }

  function Merged(fs: seq<Field>, slots: seq<Option<Val>>, ws: seq<WireField>): (s: seq<Option<Val>>)
    requires |slots| == |fs|
    ensures |s| == |fs|
  {
    seq(|fs|, i requires 0 <= i < |fs| => SlotFor(fs, i, slots[i], ws))
  }

  ghost predicate DistinctNumbers(fs: seq<Field>)
  {
    forall i, j :: 0 <= i < j < |fs| ==> fs[i].fid != fs[j].fid
  }

  // The slots of the fields that are still to come are not set.
  ghost predicate StillFresh(fs: seq<Field>, slots: seq<Option<Val>>, ws: seq<WireField>)
    requires |slots| == |fs|
  {
    forall i :: 0 <= i < |fs| && Occurrence(fs, ws, fs[i].fid).Some? ==> slots[i] == None
  }

  lemma HeadIsLast(fs: seq<Field>, ws: seq<WireField>, fid: int)
    requires ws != [] && Distinct(fs, ws)
    ensures Distinct(fs, ws[1..])
    ensures Relevant(fs, ws[0]) && ws[0].fid == fid ==> Occurrence(fs, ws[1..], fid) == None
  {
    hide Relevant;
    assert forall k :: 0 <= k < |ws| - 1 ==> ws[1..][k] == ws[k + 1];
    if Relevant(fs, ws[0]) && ws[0].fid == fid {
      forall w: Wire ensures Occurrence(fs, ws[1..], fid) != Some(w) {
        OccurrenceIsMember(fs, ws[1..], fid, w);
      }
    }
  }

  // Taking the first field into its slot leaves the final slots as they are.
  lemma StepMerges(fs: seq<Field>, slots: seq<Option<Val>>, ws: seq<WireField>)
    requires |slots| == |fs| && ws != [] && DistinctNumbers(fs) && Distinct(fs, ws) && StillFresh(fs, slots, ws)
    requires Relevant(fs, ws[0])
    ensures var i := FieldIndex(fs, ws[0].fid);
            && i < |fs| && slots[i] == None
            && (DecodeField(fs[i], None, ws[0].value).Good? ==>
                  var next := slots[i := Some(DecodeField(fs[i], None, ws[0].value).value)];
                  StillFresh(fs, next, ws[1..]) && Merged(fs, next, ws[1..]) == Merged(fs, slots, ws))
  {
    hide DecodeField, Relevant;
    RelevantHasIndex(fs, ws[0]);
    var i := FieldIndex(fs, ws[0].fid);
    HeadIsLast(fs, ws, fs[i].fid);
    assert forall j :: 0 <= j < |fs| && j != i ==> Occurrence(fs, ws, fs[j].fid) == Occurrence(fs, ws[1..], fs[j].fid);
  }

  lemma StepKeeps(fs: seq<Field>, slots: seq<Option<Val>>, ws: seq<WireField>)
    requires |slots| == |fs| && ws != [] && Distinct(fs, ws) && StillFresh(fs, slots, ws) && !Relevant(fs, ws[0])
    ensures Distinct(fs, ws[1..]) && StillFresh(fs, slots, ws[1..])
    ensures Merged(fs, slots, ws[1..]) == Merged(fs, slots, ws)
  {
    hide DecodeField, Relevant;
    HeadIsLast(fs, ws, 0);
    assert forall fid: int :: Occurrence(fs, ws, fid) == Occurrence(fs, ws[1..], fid);
  }

  // The slots after the loop depend on the occurrences only.
  lemma {:induction false} FieldsByOccurrence(fs: seq<Field>, slots: seq<Option<Val>>, seen: set<nat>,
          ws: seq<WireField>)
    requires |slots| == |fs| && DistinctNumbers(fs) && Distinct(fs, ws) && StillFresh(fs, slots, ws)
    ensures var r := DecodeFields(fs, slots, seen, ws);
            r.Good? ==> NestedGood(fs, ws) && r.value == VStruct(Merged(fs, slots, ws))
    decreases |ws|
  {
    hide DecodeField, Relevant, Merged, StillFresh, Distinct, DistinctNumbers;
    if ws == [] {
      NothingMerges(fs, slots);
    } else if Relevant(fs, ws[0]) {
      StepMerges(fs, slots, ws);
      HeadIsLast(fs, ws, 0);
      var i := FieldIndex(fs, ws[0].fid);
      var v := DecodeField(fs[i], slots[i], ws[0].value);
      if v.Good? {
        FieldsByOccurrence(fs, slots[i := Some(v.value)], seen + {i}, ws[1..]);
      }
    } else {
      StepKeeps(fs, slots, ws);
      FieldsByOccurrence(fs, slots, seen, ws[1..]);
    }
  }

  lemma NothingMerges(fs: seq<Field>, slots: seq<Option<Val>>)
    requires |slots| == |fs|
    ensures Merged(fs, slots, []) == slots
  {
  }

  lemma {:induction false} NestedGoodByMember(fs: seq<Field>, ws: seq<WireField>)
    ensures NestedGood(fs, ws) <==>
            forall f :: f in ws && Relevant(fs, f) ==> DecodeField(fs[FieldIndex(fs, f.fid)], None, f.value).Good?
    decreases |ws|
  {
    hide DecodeField, Relevant, FieldIndex;
    if ws == [] {
    } else {
      NestedGoodByMember(fs, ws[1..]);
      assert forall f :: f in ws <==> f == ws[0] || f in ws[1..];
    }
  }

  lemma OccursIsOccurrence(fs: seq<Field>, ws: seq<WireField>, i: nat)
    requires DistinctNumbers(fs) && i < |fs|
    ensures Occurs(fs, ws, i) <==> exists f :: f in ws && Relevant(fs, f) && FieldIndex(fs, f.fid) == i
  {
    hide Relevant, FieldIndex;
    if Occurs(fs, ws, i) {
      var k :| 0 <= k < |ws| && Relevant(fs, ws[k]) && FieldIndex(fs, ws[k].fid) == i;
      assert ws[k] in ws;
    }
    if f :| f in ws && Relevant(fs, f) && FieldIndex(fs, f.fid) == i {
      var k :| 0 <= k < |ws| && ws[k] == f;
    }
  }

  // Both hold the same fields that the reader knows.
  ghost predicate SameFields(fs: seq<Field>, ws: seq<WireField>, us: seq<WireField>)
  {
    forall f :: Relevant(fs, f) ==> (f in ws <==> f in us)
  }

  // A fresh object is read alike, or not at all, from the same distinct fields in any order, with
  // any others in between.
  lemma OrderDoesNotMatter(fs: seq<Field>, ws: seq<WireField>, us: seq<WireField>)
    requires DistinctNumbers(fs) && Distinct(fs, ws) && Distinct(fs, us) && SameFields(fs, ws, us)
    ensures var r, t := DecodeFields(fs, Fresh(|fs|), {}, ws), DecodeFields(fs, Fresh(|fs|), {}, us);
            (NestedGood(fs, ws) <==> NestedGood(fs, us)) && (if NestedGood(fs, ws) then r == t else r.Bad? && t.Bad?)
  {
    hide DecodeField, DecodeFields, Relevant, FieldIndex, NestedGood, Merged, Occurs, Distinct, DistinctNumbers;
    FieldsByOccurrence(fs, Fresh(|fs|), {}, ws);
    FieldsByOccurrence(fs, Fresh(|fs|), {}, us);
    NestedGoodByMember(fs, ws);
    NestedGoodByMember(fs, us);
    if NestedGood(fs, ws) {
      InvalidDataExactly(fs, Fresh(|fs|), {}, ws);
      InvalidDataExactly(fs, Fresh(|fs|), {}, us);
      forall i: nat | i < |fs| ensures Occurs(fs, ws, i) <==> Occurs(fs, us, i) {
        OccursIsOccurrence(fs, ws, i);
        OccursIsOccurrence(fs, us, i);
      }
      assert Complete(fs, {}, ws) <==> Complete(fs, {}, us);
      SameOccurrences(fs, ws, us);
    }
  }

  lemma SameOccurrences(fs: seq<Field>, ws: seq<WireField>, us: seq<WireField>)
    requires Distinct(fs, ws) && Distinct(fs, us) && SameFields(fs, ws, us)
    ensures Merged(fs, Fresh(|fs|), ws) == Merged(fs, Fresh(|fs|), us)
  {
    hide DecodeField, Relevant, Distinct;
    forall i: nat | i < |fs| ensures Occurrence(fs, ws, fs[i].fid) == Occurrence(fs, us, fs[i].fid) {
      var fid := fs[i].fid;
      var a, b := Occurrence(fs, ws, fid), Occurrence(fs, us, fid);
      if a.Some? {
        OccurrenceIsMember(fs, ws, fid, a.value);
        OccurrenceIsMember(fs, us, fid, a.value);
      }
      if b.Some? {
        OccurrenceIsMember(fs, ws, fid, b.value);
        OccurrenceIsMember(fs, us, fid, b.value);
      }
    }
  }

  // The same about the token stream: what read makes of a struct with these fields.
  lemma StructReads(fs: seq<Field>, ws: seq<WireField>, rest: seq<Token>)
    requires WellTypedFields(ws)
    ensures ReadVal(StructOf(fs), None, Emit(Fields(ws)) + rest) == Then(DecodeFields(fs, Fresh(|fs|), {}, ws), rest)
  {
    hide ReadVal, DecodeFields, Emit, ReadFields;
    ReadDecodes(StructOf(fs), None, Fields(ws), rest);
  }
}
