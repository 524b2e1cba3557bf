// std::map under the generated code: a sorted list of entries.
module ThriftMaps {
  import opened Bytes
  import opened Options
  import opened ThriftWire
  import opened ThriftCodec

  lemma {:induction false} LessIsTotal(a: seq<Byte>, b: seq<Byte>)
    ensures a == b || Less(a, b) || Less(b, a)
    decreases |a|
  {
    if a == [] || b == [] || a[0] != b[0] {
    } else {
      LessIsTotal(a[1..], b[1..]);
      assert a == [a[0]] + a[1..] && b == [b[0]] + b[1..];
    }
  }

  lemma {:induction false} LessIsTransitive(a: seq<Byte>, b: seq<Byte>, c: seq<Byte>)
    requires Less(a, b) && Less(b, c)
    ensures Less(a, c)
    decreases |a|
  {
    if a == [] || a[0] < b[0] || b[0] < c[0] {
    } else {
      LessIsTransitive(a[1..], b[1..], c[1..]);
    }
  }

  // Every key of m lies behind key.
  ghost predicate AllAbove(m: seq<MapEntry>, key: seq<Byte>)
  {
    forall i :: 0 <= i < |m| ==> Less(key, m[i].key)
  }

  lemma SortedCons(x: MapEntry, m: seq<MapEntry>)
    ensures Sorted([x] + m) <==> AllAbove(m, x.key) && Sorted(m)
  {
    hide Less;
    var all := [x] + m;
    assert forall i :: 0 <= i < |m| ==> m[i] == all[i + 1];
    if Sorted(all) {
      forall i, j | 0 <= i < j < |m| ensures Less(m[i].key, m[j].key) {
        assert Less(all[i + 1].key, all[j + 1].key);
      }
      forall i | 0 <= i < |m| ensures Less(x.key, m[i].key) {
        assert Less(all[0].key, all[i + 1].key);
      }
    }
  }

  lemma AboveSmaller(m: seq<MapEntry>, low: seq<Byte>, key: seq<Byte>)
    requires AllAbove(m, key) && Less(low, key)
    ensures AllAbove(m, low)
  {
    hide Less;
    forall i | 0 <= i < |m| ensures Less(low, m[i].key) {
      LessIsTransitive(low, key, m[i].key);
    }
  }

  lemma {:induction false} InsertStaysAbove(m: seq<MapEntry>, key: seq<Byte>, v: Val, low: seq<Byte>)
    requires AllAbove(m, low) && Less(low, key)
    ensures AllAbove(Insert(m, key, v), low)
    decreases |m|
  {
    hide Less;
    if m == [] || Less(key, m[0].key) || m[0].key == key {
    } else {
      InsertStaysAbove(m[1..], key, v, low);
    }
  }

  // Assigning to a key keeps the map sorted, sets that key, and changes no other.
  lemma {:induction false} InsertIsUpdate(m: seq<MapEntry>, key: seq<Byte>, v: Val, other: seq<Byte>)
    requires Sorted(m)
    ensures Sorted(Insert(m, key, v))
    ensures Find(Insert(m, key, v), other) == if other == key then Some(v) else Find(m, other)
    decreases |m|
  {
    hide Sorted, Less, AllAbove;
    if m == [] {
      SortedCons(MapEntry(key, v), []);
      assert Sorted([]) by {
        NothingIsSorted();
      }
      assert AllAbove([], key) by {
        NothingIsAbove(key);
      }
      assert [MapEntry(key, v)] + [] == [MapEntry(key, v)];
      assert [MapEntry(key, v)][1..] == [];
    } else {
      var x, rest := m[0], m[1..];
      assert m == [x] + rest;
      SortedCons(x, rest);
      if Less(key, x.key) {
        AboveSmaller(rest, key, x.key);
        AboveCons(x, rest, key);
        SortedCons(MapEntry(key, v), m);
        assert ([MapEntry(key, v)] + m)[1..] == m;
      } else if x.key == key {
        SortedCons(MapEntry(key, v), rest);
        assert ([MapEntry(key, v)] + rest)[1..] == rest;
      } else {
        LessIsTotal(key, x.key);
        InsertStaysAbove(rest, key, v, x.key);
        InsertIsUpdate(rest, key, v, other);
        SortedCons(x, Insert(rest, key, v));
        assert ([x] + Insert(rest, key, v))[1..] == Insert(rest, key, v);
      }
    }
  }

  lemma NothingIsSorted()
    ensures Sorted([])
  {
  }

  lemma NothingIsAbove(key: seq<Byte>)
    ensures AllAbove([], key)
  {
  }

  lemma AboveCons(x: MapEntry, m: seq<MapEntry>, key: seq<Byte>)
    requires Less(key, x.key) && AllAbove(m, key)
    ensures AllAbove([x] + m, key)
  {
    hide Less;
  }

  lemma InsertSame(key: seq<Byte>, v: Val, w: Val)
    ensures Insert([MapEntry(key, v)], key, w) == [MapEntry(key, w)]
  {
    if Less(key, key) {
      LessIsStrict(key, key);
    }
    assert [MapEntry(key, v)][1..] == [];
  }

  lemma PairsAreWellTyped(key: seq<Byte>, w1: Wire, w2: Wire)
    requires WellTyped(w1) && WellTyped(w2) && TypeOf(w1) == TypeOf(w2)
    ensures WellTyped(Pairs(T_STRING, TypeOf(w1), [WirePair(Str(key), w1), WirePair(Str(key), w2)]))
  {
    var p1, p2 := WirePair(Str(key), w1), WirePair(Str(key), w2);
    assert [p1, p2][1..] == [p2] && [p2][1..] == [];
    assert WellTypedPair(T_STRING, TypeOf(w1), p1) && WellTypedPair(T_STRING, TypeOf(w1), p2);
    assert WellTypedPairs(T_STRING, TypeOf(w1), [p2]);
  }

  lemma MapDecodes(e: Shape, prior: Option<Val>, t: TType, ps: seq<WirePair>)
    ensures Decode(MapOf(e), prior, Pairs(T_STRING, t, ps))
         == match DecodePairs(e, [], ps)
            case Good(m) => Good(VMap(m))
            case Bad(x) => Bad(x)
  {
    hide DecodePairs;
  }

  lemma RepeatedKeyDecodes(e: Shape, key: seq<Byte>, w1: Wire, w2: Wire)
    requires Decode(e, None, w1).Good?
    ensures var v := Decode(e, Some(Decode(e, None, w1).value), w2);
            DecodePairs(e, [], [WirePair(Str(key), w1), WirePair(Str(key), w2)])
            == if v.Good? then Good([MapEntry(key, v.value)]) else Bad(v.err)
  {
    hide Decode, Less;
    var p1, p2 := WirePair(Str(key), w1), WirePair(Str(key), w2);
    var first := Decode(e, None, w1).value;
    var m := [MapEntry(key, first)];
    assert [p1, p2][1..] == [p2] && [p2][1..] == [];
    assert Find([], key) == None && Insert([], key, first) == m && Find(m, key) == Some(first);
    assert DecodePairs(e, [], [p1, p2]) == DecodePairs(e, m, [p2]);
    var v := Decode(e, Some(first), w2);
    if v.Good? {
      InsertSame(key, first, v.value);
      assert DecodePairs(e, m, [p2]) == DecodePairs(e, [MapEntry(key, v.value)], []);
    }
  }

  // A key that comes twice is read into the value it has: the map ends up with one entry for it,
  // which merges the second value into the first.
  lemma RepeatedKeyMerges(e: Shape, key: seq<Byte>, w1: Wire, w2: Wire, prior: Option<Val>, rest: seq<Token>)
    requires WellTyped(w1) && WellTyped(w2) && TypeOf(w1) == TypeOf(w2) && Decode(e, None, w1).Good?
    ensures var ps := [WirePair(Str(key), w1), WirePair(Str(key), w2)];
            var v := Decode(e, Some(Decode(e, None, w1).value), w2);
            ReadVal(MapOf(e), prior, Emit(Pairs(T_STRING, TypeOf(w1), ps)) + rest)
            == if v.Good? then Good((VMap([MapEntry(key, v.value)]), rest)) else Bad(v.err)
  {
    hide ReadVal, Emit, Decode, DecodePairs;
    var p1, p2 := WirePair(Str(key), w1), WirePair(Str(key), w2);
    PairsAreWellTyped(key, w1, w2);
    ReadDecodes(MapOf(e), prior, Pairs(T_STRING, TypeOf(w1), [p1, p2]), rest);
    MapDecodes(e, prior, TypeOf(w1), [p1, p2]);
    RepeatedKeyDecodes(e, key, w1, w2);
  }
}
