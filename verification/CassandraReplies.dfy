// The replies of a Cassandra server token by token, and what a client makes of those that are no
// result.
module CassandraReplies {
  import opened Bytes
  import opened Options
  import opened ThriftWire
  import opened ThriftCodec
  import opened CassandraRpc

  // ---------- errors ----------

  // A TApplicationException as a message: its text is field 1, its type field 2.
  function ErrorTokens(name: seq<Byte>, seqid: int, text: seq<Byte>, kind: int): seq<Token>
  {
    [MessageBegin(name, T_EXCEPTION, seqid), StructBegin, FieldBegin(T_STRING, 1), Text(text), FieldEnd,
     FieldBegin(T_I32, 2), Scalar(T_I32, kind), FieldEnd, FieldStop, StructEnd, MessageEnd]
  }

  lemma RefusalTokens(name: seq<Byte>, seqid: int, text: seq<Byte>, kind: int)
    ensures Refusal(name, seqid, text, kind) == ErrorTokens(name, seqid, text, kind)
  {
    var fs, slots := APP_EXCEPTION.fields, AppException(text, kind).slots;
    var a, b := WireField(1, Str(text)), WireField(2, Num(T_I32, kind));
    assert ToFields(fs, slots, 2) == [] && ToFields(fs, slots, 1) == [b];
    assert ToFields(fs, slots, 0) == [a] + [b] == [a, b];
    assert [a, b][1..] == [b] && [b][1..] == [];
    assert EmitFields([b]) == EmitField(b) + EmitFields([]);
    assert EmitFields([a, b]) == EmitField(a) + EmitFields([b]);
  }

  // A call of a method that the server does not have is refused with type 1 and a text that names
  // it, a message that is no call with type 2 and no text. Neither reaches the handlers.
  lemma RefusesExactly<S(!new)>(svc: Service<S>, s: S, q: Request, rest: seq<Token>, front: string)
    requires SoundService(svc) && WellTyped(q.body) && q.body.Fields? && front == "Invalid method name: '"
    ensures q.mtype == T_REPLY || q.mtype == T_EXCEPTION ==>
              Served(svc, s, Tokens(q) + rest) == Good(Answer(s, ErrorTokens(q.name, q.seqid, [], 2), rest))
    ensures (q.mtype == T_CALL || q.mtype == T_ONEWAY) && q.name !in svc.methods ==>
              var text := Ascii(front) + q.name + Ascii("'");
              Served(svc, s, Tokens(q) + rest) == Good(Answer(s, ErrorTokens(q.name, q.seqid, text, 1), rest))
  {
    hide Served, SoundService, ErrorTokens, Refusal, WellTyped, Ascii;
    if q.mtype == T_REPLY || q.mtype == T_EXCEPTION || q.name !in svc.methods {
      ServesOne(svc, s, q, rest);
      RefusalTokens(q.name, q.seqid, [], 2);
      RefusalTokens(q.name, q.seqid, InvalidName(q.name), 1);
    }
  }

  // The client that waits for the reply gets that text and that type, whatever it has called.
  lemma ErrorArrives(m: MethodSpec, name: seq<Byte>, into: Option<Val>, sent: seq<Byte>, seqid: int, text: seq<Byte>,
          kind: int, rest: seq<Token>)
    ensures Received(m, name, into, ErrorTokens(sent, seqid, text, kind) + rest) == Good((AppError(text, kind), rest))
  {
    hide Emit, ReadVal, ToWire, Picked, Skipped, ReadResult, Shown;
    var x := AppException(text, kind);
    RefusalTokens(sent, seqid, text, kind);
    MessageOpens(sent, T_EXCEPTION, seqid, ToWire(APP_EXCEPTION, x), rest);
    ReadInvertsWrite(APP_EXCEPTION, x, [MessageEnd] + rest);
  }

  // A message of another type ends in type 2, a reply with another name in type 3; the message is
  // consumed whole.
  lemma ForeignMessageIsRefused(m: MethodSpec, name: seq<Byte>, into: Option<Val>, q: Request, rest: seq<Token>)
    requires WellTyped(q.body) && q.body.Fields? && q.mtype != T_EXCEPTION
    ensures q.mtype != T_REPLY ==> Received(m, name, into, Tokens(q) + rest) == Good((AppError([], 2), rest))
    ensures q.mtype == T_REPLY && q.name != name ==>
              Received(m, name, into, Tokens(q) + rest) == Good((AppError([], 3), rest))
  {
    hide Emit, WellTyped, Skipped, ReadResult, ReadVal, Message;
    MessageOpens(q.name, q.mtype, q.seqid, q.body, rest);
    BodySkips(q.body, rest);
  }

  // A reply without any field: the result of a void method, and for every other one an error of
  // type 5 that names the method.
  lemma EmptyReplyMeans(m: MethodSpec, name: seq<Byte>, into: Option<Val>, seqid: int, rest: seq<Token>, back: string)
    requires back == " failed: unknown result"
    ensures Received(m, name, into, Message(name, T_REPLY, seqid, Fields([])) + rest)
         == Good((if m.success == None then NoValue else AppError(name + Ascii(back), 5), rest))
  {
    hide Ascii, FirstThrown;
    MessageOpens(name, T_REPLY, seqid, Fields([]), rest);
    var slots := ResultSlots(m, into);
    assert Emit(Fields([])) + ([MessageEnd] + rest) == [StructBegin, FieldStop, StructEnd, MessageEnd] + rest;
    EmptyStructReads(ResultFields(m), slots, [MessageEnd] + rest);
    var shown := Shown(Filled(slots, {}));
    assert forall i :: 0 <= i < |shown| ==> shown[i] == None;
    NothingThrown(shown[FirstThrow(m)..], 0);
  }

  lemma EmptyStructReads(fs: seq<Field>, slots: seq<Option<Val>>, rest: seq<Token>)
    requires |slots| == |fs|
    ensures ReadSlots(fs, slots, {}, [FieldStop, StructEnd] + rest) == Good((Filled(slots, {}), rest))
  {
    assert ([FieldStop, StructEnd] + rest)[1..] == [StructEnd] + rest && ([StructEnd] + rest)[1..] == rest;
  }

  // ---------- results ----------

  // A message with a single field in its struct, and one with none
  function OneField(name: seq<Byte>, seqid: int, fid: int, value: Wire): seq<Token>
  {
    [MessageBegin(name, T_REPLY, seqid), StructBegin, FieldBegin(TypeOf(value), fid)] + Emit(value)
    + [FieldEnd, FieldStop, StructEnd, MessageEnd]
  }

  lemma {:induction false} NoFieldsFrom(fs: seq<Field>, slots: seq<Option<Val>>, k: nat)
    requires k <= |fs| == |slots| && forall i :: k <= i < |slots| ==> slots[i] == None
    requires forall i :: 0 <= i < |fs| && slots[i].Some? ==> Typed(fs[i].shape, slots[i].value)
    ensures ToFields(fs, slots, k) == []
    decreases |fs| - k
  {
    if k == |fs| {
    } else {
      NoFieldsFrom(fs, slots, k + 1);
    }
  }

  lemma {:induction false} OnlyField(fs: seq<Field>, slots: seq<Option<Val>>, at: nat, k: nat)
    requires k <= at < |fs| == |slots| && slots[at].Some? && Typed(fs[at].shape, slots[at].value)
    requires forall i :: k <= i < |slots| && i != at ==> slots[i] == None
    requires forall i :: 0 <= i < |fs| && slots[i].Some? ==> Typed(fs[i].shape, slots[i].value)
    ensures ToFields(fs, slots, k) == [WireField(fs[at].fid, ToWire(fs[at].shape, slots[at].value))]
    decreases at - k
  {
    hide Typed, ToWire;
    if k == at {
      NoFieldsFrom(fs, slots, k + 1);
    } else {
      OnlyField(fs, slots, at, k + 1);
    }
  }

  lemma OneFieldEmits(name: seq<Byte>, seqid: int, fid: int, value: Wire)
    ensures Message(name, T_REPLY, seqid, Fields([WireField(fid, value)])) == OneField(name, seqid, fid, value)
  {
    var f := WireField(fid, value);
    assert [f][1..] == [] && EmitFields([f]) == EmitField(f) + EmitFields([]);
  }

  // What a handler did, on the wire: its value as field 0, its i-th declared exception as field
  // i + 1, nothing for a void method, and any other exception as an error of type 0 with its text.
  lemma ReplyTokens(m: MethodSpec, name: seq<Byte>, seqid: int, h: Handled)
    requires Possible(m, h)
    ensures h.Returned? ==> Reply(m, name, seqid, h) == OneField(name, seqid, 0, ToWire(m.success.value, h.value))
    ensures h.Raised? ==>
              Reply(m, name, seqid, h) == OneField(name, seqid, h.which + 1, ToWire(m.throws[h.which], h.exception))
    ensures h.ReturnedVoid? ==>
              Reply(m, name, seqid, h)
              == [MessageBegin(name, T_REPLY, seqid), StructBegin, FieldStop, StructEnd, MessageEnd]
    ensures h.OtherException? ==> Reply(m, name, seqid, h) == ErrorTokens(name, seqid, h.what, 0)
  {
    hide Typed, Message, OneField, ErrorTokens, FirstSet;
    if h.OtherException? {
      RefusalTokens(name, seqid, h.what, 0);
    } else {
      ResultIsTyped(m, h);
      var fs, slots := ResultFields(m), ResultOf(m, h).slots;
      SlotsTyped(fs, slots);
      if h.ReturnedVoid? {
        NoFieldsFrom(fs, slots, 0);
        EmptyMessage(name, seqid);
      } else {
        var at := if h.Returned? then 0 else FirstThrow(m) + h.which;
        OnlyField(fs, slots, at, 0);
        OneFieldEmits(name, seqid, fs[at].fid, ToWire(fs[at].shape, slots[at].value));
      }
    }
  }

  lemma SlotsTyped(fs: seq<Field>, slots: seq<Option<Val>>)
    requires Typed(StructOf(fs), VStruct(slots))
    ensures |slots| == |fs| && forall i :: 0 <= i < |fs| && slots[i].Some? ==> Typed(fs[i].shape, slots[i].value)
  {
  }

  lemma EmptyMessage(name: seq<Byte>, seqid: int)
    ensures Message(name, T_REPLY, seqid, Fields([]))
         == [MessageBegin(name, T_REPLY, seqid), StructBegin, FieldStop, StructEnd, MessageEnd]
  {
    assert EmitFields([]) == [];
  }
}
