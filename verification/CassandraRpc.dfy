// The request and reply exchange of Cassandra.cpp.
module CassandraRpc {
  import opened Bytes
  import opened Options
  import opened ThriftWire
  import opened ThriftCodec
  import opened ThriftProtocol

  // ---------- messages ----------

  // TApplicationException: a message and a type. The class belongs to the Thrift library.
  const APP_EXCEPTION := StructOf([Field(1, false, Chars), Field(2, false, Plain(T_I32))])

  const UNKNOWN: int := 0
  const UNKNOWN_METHOD: int := 1
  const INVALID_MESSAGE_TYPE: int := 2
  const WRONG_METHOD_NAME: int := 3
  const MISSING_RESULT: int := 5

  function AppException(text: seq<Byte>, kind: int): Val
  {
    VStruct([Some(VText(text)), Some(VNum(kind))])
  }

  function Ascii(s: string): seq<Byte>
  {
    seq(|s|, i requires 0 <= i < |s| => if s[i] as int < 256 then s[i] as int else 0)
  }

  function InvalidName(name: seq<Byte>): seq<Byte>
  {
    Ascii("Invalid method name: '") + name + Ascii("'")
  }

  function Message(name: seq<Byte>, mtype: TMessageType, seqid: int, body: Wire): seq<Token>
  {
    [MessageBegin(name, mtype, seqid)] + Emit(body) + [MessageEnd]
  }

  // ---------- methods and what a handler does ----------

  // Arguments, the type of the result unless it is void, and the declared exceptions in order
  datatype MethodSpec = MethodSpec(args: seq<Field>, success: Option<Shape>, throws: seq<Shape>)

  datatype Handled =
    | Returned(value: Val)
    | ReturnedVoid
    | Raised(which: nat, exception: Val)
    | OtherException(what: seq<Byte>)

  // iface_ with its own state, and processMap_
  datatype Service<!S> = Service(methods: map<seq<Byte>, MethodSpec>, call: (S, seq<Byte>, Val) -> (S, Handled))

  // The result struct: success is field 0, exceptions are numbered from 1.
  function Throws(throws: seq<Shape>): (fs: seq<Field>)
    ensures |fs| == |throws|
  {
    seq(|throws|, i requires 0 <= i < |throws| => Field(i + 1, false, throws[i]))
  }

  function ResultFields(m: MethodSpec): seq<Field>
  {
    (if m.success.Some? then [Field(0, false, m.success.value)] else []) + Throws(m.throws)
  }

  function FirstThrow(m: MethodSpec): nat
  {
    if m.success.Some? then 1 else 0
  }

  ghost predicate SoundMethod(m: MethodSpec)
  {
    && Sound(StructOf(m.args)) && (m.success.Some? ==> Sound(m.success.value))
    && forall i :: 0 <= i < |m.throws| ==> Sound(m.throws[i])
  }

  // What a handler of this method can do in C++
  ghost predicate Possible(m: MethodSpec, h: Handled)
  {
    match h
    case Returned(v) => m.success.Some? && Typed(m.success.value, v)
    case ReturnedVoid => m.success == None
    case Raised(i, x) => i < |m.throws| && Typed(m.throws[i], x)
    case OtherException(_) => true
  }

  ghost predicate SoundService<S(!new)>(svc: Service<S>)
  {
    forall name :: name in svc.methods ==>
      && SoundMethod(svc.methods[name])
      && forall s, args :: Possible(svc.methods[name], svc.call(s, name, args).1)
  }

  // The result object after the try block: one slot at most is set.
  function ResultOf(m: MethodSpec, h: Handled): (v: Val)
    requires Possible(m, h) && !h.OtherException?
    ensures v.VStruct? && |v.slots| == |ResultFields(m)|
  {
    var n := |ResultFields(m)|;
    match h
    case Returned(v) => VStruct(Fresh(n)[0 := Some(v)])
    case ReturnedVoid => VStruct(Fresh(n))
    case Raised(i, x) => VStruct(Fresh(n)[FirstThrow(m) + i := Some(x)])
  }

  // write of a result: an if-else chain, so only the first slot that is set is written.
  function FirstSet(slots: seq<Option<Val>>): (s: seq<Option<Val>>)
    ensures |s| == |slots|
  {
    if slots == [] then []
    else if slots[0].Some? then [slots[0]] + Fresh(|slots| - 1)
    else [None] + FirstSet(slots[1..])
  }

  ghost predicate TypedResult(m: MethodSpec, v: Val)
  {
    Typed(StructOf(ResultFields(m)), v)
  }

  // ---------- the server ----------

  // The reply to a request that does not name a method or is not a call
  function Refusal(name: seq<Byte>, seqid: int, text: seq<Byte>, kind: int): seq<Token>
  {
    Message(name, T_EXCEPTION, seqid, ToWire(APP_EXCEPTION, AppException(text, kind)))
  }

  ghost function Reply(m: MethodSpec, name: seq<Byte>, seqid: int, h: Handled): seq<Token>
    requires Possible(m, h)
  {
    match h
    case OtherException(what) => Refusal(name, seqid, what, UNKNOWN)
    case _ =>
      ResultIsTyped(m, h);
      Message(name, T_REPLY, seqid, ToWire(StructOf(ResultFields(m)), VStruct(FirstSet(ResultOf(m, h).slots))))
  }

  lemma ResultIsTyped(m: MethodSpec, h: Handled)
    requires Possible(m, h) && !h.OtherException?
    ensures TypedResult(m, ResultOf(m, h)) && FirstSet(ResultOf(m, h).slots) == ResultOf(m, h).slots
    ensures TypedResult(m, VStruct(FirstSet(ResultOf(m, h).slots)))
  {
    hide FirstSet;
    assert FirstSet(ResultOf(m, h).slots) == ResultOf(m, h).slots by {
      hide Typed;
      OneSetIsFirst(ResultOf(m, h).slots);
    }
    SlotsAreTyped(m, h);
  }

  lemma SlotsAreTyped(m: MethodSpec, h: Handled)
    requires Possible(m, h) && !h.OtherException?
    ensures TypedResult(m, ResultOf(m, h))
  {
    var fs, slots := ResultFields(m), ResultOf(m, h).slots;
    forall i | 0 <= i < |fs| ensures if slots[i].Some? then Typed(fs[i].shape, slots[i].value) else !fs[i].required {
      hide Typed;
    }
  }

  lemma {:induction false} OneSetIsFirst(slots: seq<Option<Val>>)
    requires forall i, j :: 0 <= i < j < |slots| ==> slots[i] == None || slots[j] == None
    ensures FirstSet(slots) == slots
  {
    if slots == [] {
    } else {
      if slots[0].Some? {
        assert slots == [slots[0]] + Fresh(|slots| - 1);
      } else {
        OneSetIsFirst(slots[1..]);
        assert slots == [slots[0]] + slots[1..];
      }
    }
  }

  class CassandraProcessor<S(!new)> {
    const service: Service<S>
    var state: S

    constructor (service: Service<S>, state: S)
      ensures this.service == service && this.state == state
    {
      this.service := service;
      this.state := state;
    }

    // process: an exception leaves it when the request cannot be read.
    method Process(iprot: TProtocol, oprot: TProtocol) returns (r: Outcome<bool>)
      requires SoundService(service) && iprot != oprot
      modifies this, iprot, oprot
      ensures var p := Served(service, old(state), old(iprot.tokens));
              && Agrees(r, p)
              && (p.Good? ==>
                    && state == p.value.state && iprot.tokens == p.value.rest
                    && oprot.tokens == old(oprot.tokens) + p.value.reply)
    {
      var t :- iprot.Read();
      if !t.MessageBegin? {
        return Bad(BadStream);
      }
      if t.mtype != T_CALL && t.mtype != T_ONEWAY {
        r := Refuse(iprot, oprot, t.name, t.seqid, [], INVALID_MESSAGE_TYPE);
        return;
      }
      if t.name !in service.methods {
        r := Refuse(iprot, oprot, t.name, t.seqid, InvalidName(t.name), UNKNOWN_METHOD);
        return;
      }
      r := ProcessCall(iprot, oprot, t.name, t.seqid);
    }

    method Refuse(iprot: TProtocol, oprot: TProtocol, name: seq<Byte>, seqid: int, text: seq<Byte>, kind: int)
      returns (r: Outcome<bool>)
      requires iprot != oprot
      modifies iprot, oprot
      ensures var p := Skipped(old(iprot.tokens));
              && Agrees(r, p)
              && (p.Good? ==>
                    && iprot.tokens == p.value
                    && oprot.tokens == old(oprot.tokens) + Refusal(name, seqid, text, kind))
    {
      hide Emit, ToWire, Skip;
      var _ :- iprot.SkipValue(T_STRUCT);
      var _ :- iprot.ReadEnd(MessageEnd);
      WriteMessage(oprot, name, T_EXCEPTION, seqid, APP_EXCEPTION, AppException(text, kind));
      r := Good(true);
    }

    method WriteMessage(oprot: TProtocol, name: seq<Byte>, mtype: TMessageType, seqid: int, sh: Shape, v: Val)
      requires Typed(sh, v)
      modifies oprot
      ensures oprot.tokens == old(oprot.tokens) + Message(name, mtype, seqid, ToWire(sh, v))
    {
      hide Emit, ToWire, Typed;
      oprot.Write(MessageBegin(name, mtype, seqid));
      oprot.WriteValue(sh, v);
      oprot.Write(MessageEnd);
    }

    // process_get and its like
    method ProcessCall(iprot: TProtocol, oprot: TProtocol, name: seq<Byte>, seqid: int) returns (r: Outcome<bool>)
      requires SoundService(service) && name in service.methods && iprot != oprot
      modifies this, iprot, oprot
      ensures var p := Called(service, old(state), name, seqid, old(iprot.tokens));
              && Agrees(r, p)
              && (p.Good? ==>
                    && state == p.value.state && iprot.tokens == p.value.rest
                    && oprot.tokens == old(oprot.tokens) + p.value.reply)
    {
      hide Emit, ToWire, ReadVal, Message, SoundMethod;
      var m := service.methods[name];
      var args :- iprot.ReadValue(StructOf(m.args), None);
      var _ :- iprot.ReadEnd(MessageEnd);
      var (next, h) := service.call(state, name, args);
      assert Possible(m, h) by {
        assert Possible(m, service.call(state, name, args).1);
      }
      state := next;
      match h {
        case OtherException(what) =>
          WriteMessage(oprot, name, T_EXCEPTION, seqid, APP_EXCEPTION, AppException(what, UNKNOWN));
        case _ =>
          ResultIsTyped(m, h);
          var result := FillResult(m, h);
          WriteMessage(oprot, name, T_REPLY, seqid, StructOf(ResultFields(m)), VStruct(FirstSet(result.slots)));
      }
      r := Good(true);
    }

    // The try and catch blocks
    method FillResult(m: MethodSpec, h: Handled) returns (result: Val)
      requires Possible(m, h) && !h.OtherException?
      ensures result == ResultOf(m, h)
    {
      var slots := Fresh(|ResultFields(m)|);
      match h {
        case Returned(v) => slots := slots[0 := Some(v)];
        case Raised(i, x) => slots := slots[FirstThrow(m) + i := Some(x)];
        case _ =>
      }
      result := VStruct(slots);
    }
  }

  datatype Answer<!S> = Answer(state: S, reply: seq<Token>, rest: seq<Token>)

  // A skipped body and the end of the message
  function Skipped(ts: seq<Token>): Outcome<seq<Token>>
  {
    var mid :- Skip(T_STRUCT, ts);
    Expect(mid, MessageEnd)
  }

  ghost function Called<S(!new)>(svc: Service<S>, s: S, name: seq<Byte>, seqid: int, ts: seq<Token>): Outcome<Answer<S>>
    requires SoundService(svc) && name in svc.methods
  {
    var m := svc.methods[name];
    var (args, mid) :- ReadVal(StructOf(m.args), None, ts);
    var rest :- Expect(mid, MessageEnd);
    var (next, h) := svc.call(s, name, args);
    assert Possible(m, svc.call(s, name, args).1);
    Good(Answer(next, Reply(m, name, seqid, h), rest))
  }

  // What process makes of the request in front of ts
  ghost function Served<S(!new)>(svc: Service<S>, s: S, ts: seq<Token>): Outcome<Answer<S>>
    requires SoundService(svc)
  {
    if ts == [] || !ts[0].MessageBegin? then Bad(BadStream)
    else if ts[0].mtype != T_CALL && ts[0].mtype != T_ONEWAY then
      var rest :- Skipped(ts[1..]);
      Good(Answer(s, Refusal(ts[0].name, ts[0].seqid, [], INVALID_MESSAGE_TYPE), rest))
    else if ts[0].name !in svc.methods then
      var rest :- Skipped(ts[1..]);
      Good(Answer(s, Refusal(ts[0].name, ts[0].seqid, InvalidName(ts[0].name), UNKNOWN_METHOD), rest))
    else Called(svc, s, ts[0].name, ts[0].seqid, ts[1..])
  }

  // ---------- the client ----------

  datatype CallResult =
    | Value(value: Val)
    | NoValue
    | Thrown(which: nat, exception: Val)
    | AppError(text: seq<Byte>, kind: int)

  // What recv does with the result struct: success first, then the exceptions in order.
  function FirstThrown(slots: seq<Option<Val>>, i: nat): Option<CallResult>
    requires i <= |slots|
    decreases |slots| - i
  {
    if i == |slots| then None
    else if slots[i].Some? then Some(Thrown(i, slots[i].value))
    else FirstThrown(slots, i + 1)
  }

  function Picked(m: MethodSpec, name: seq<Byte>, slots: seq<Option<Val>>): CallResult
    requires |slots| == |ResultFields(m)|
  {
    if m.success.Some? && slots[0].Some? then Value(slots[0].value)
    else
      match FirstThrown(slots[FirstThrow(m)..], 0)
      case Some(thrown) => thrown
      case None =>
        if m.success == None then NoValue else AppError(name + Ascii(" failed: unknown result"), MISSING_RESULT)
  }

  function AppErrorOf(x: Val): CallResult
  {
    if x.VStruct? && |x.slots| == 2 then
      AppError(if x.slots[0].Some? && x.slots[0].value.VText? then x.slots[0].value.bytes else [],
               if x.slots[1].Some? && x.slots[1].value.VNum? then x.slots[1].value.n else UNKNOWN)
    else AppError([], UNKNOWN)
  }

  // The fields of result before it is read: success points to the object that the caller passes.
  function ResultSlots(m: MethodSpec, into: Option<Val>): (s: seq<Option<Val>>)
    ensures |s| == |ResultFields(m)|
  {
    (if m.success.Some? then [into] else []) + Fresh(|m.throws|)
  }

  // read of the result struct, with the flags of the fields that came
  function ReadResult(m: MethodSpec, into: Option<Val>, ts: seq<Token>): (r: Parsed<Filled>)
    ensures r.Good? ==> |r.value.0.slots| == |ResultFields(m)|
  {
    if ts == [] || ts[0] != StructBegin then Bad(BadStream)
    else ReadSlots(ResultFields(m), ResultSlots(m, into), {}, ts[1..])
  }

  // Only a field whose flag is set is looked at.
  function Shown(result: Filled): (s: seq<Option<Val>>)
    ensures |s| == |result.slots|
  {
    seq(|result.slots|, i requires 0 <= i < |result.slots| => if i in result.isset then result.slots[i] else None)
  }

  // recv_get and its like, with the object to return, or None for a fresh one
  function Received(m: MethodSpec, name: seq<Byte>, into: Option<Val>, ts: seq<Token>): Parsed<CallResult>
  {
    if ts == [] || !ts[0].MessageBegin? then Bad(BadStream)
    else if ts[0].mtype == T_EXCEPTION then
      var (x, mid) :- ReadVal(APP_EXCEPTION, None, ts[1..]);
      var rest :- Expect(mid, MessageEnd);
      Good((AppErrorOf(x), rest))
    else if ts[0].mtype != T_REPLY then
      var rest :- Skipped(ts[1..]);
      Good((AppError([], INVALID_MESSAGE_TYPE), rest))
    else if ts[0].name != name then
      var rest :- Skipped(ts[1..]);
      Good((AppError([], WRONG_METHOD_NAME), rest))
    else
      var (result, mid) :- ReadResult(m, into, ts[1..]);
      var rest :- Expect(mid, MessageEnd);
      Good((Picked(m, name, Shown(result)), rest))
  }

  method Send(oprot: TProtocol, m: MethodSpec, name: seq<Byte>, args: Val)
    requires Typed(StructOf(m.args), args)
    modifies oprot
    ensures oprot.tokens == old(oprot.tokens) + Message(name, T_CALL, 0, ToWire(StructOf(m.args), args))
  {
    hide Emit, ToWire, Typed;
    oprot.Write(MessageBegin(name, T_CALL, 0));
    oprot.WriteValue(StructOf(m.args), args);
    oprot.Write(MessageEnd);
  }

  method Recv(iprot: TProtocol, m: MethodSpec, name: seq<Byte>, into: Option<Val>) returns (r: Outcome<CallResult>)
    modifies iprot
    ensures var p := Received(m, name, into, old(iprot.tokens));
            Agrees(r, p) && (p.Good? ==> p.value == (r.value, iprot.tokens))
  {
    hide ReadVal, ReadSlots, Skip, Picked, AppErrorOf, Shown;
    var t :- iprot.Read();
    if !t.MessageBegin? {
      return Bad(BadStream);
    }
    if t.mtype == T_EXCEPTION {
      var x :- iprot.ReadValue(APP_EXCEPTION, None);
      var _ :- iprot.ReadEnd(MessageEnd);
      return Good(AppErrorOf(x));
    }
    if t.mtype != T_REPLY || t.name != name {
      var _ :- iprot.SkipValue(T_STRUCT);
      var _ :- iprot.ReadEnd(MessageEnd);
      return Good(AppError([], if t.mtype != T_REPLY then INVALID_MESSAGE_TYPE else WRONG_METHOD_NAME));
    }
    var _ :- iprot.ReadEnd(StructBegin);
    var result :- iprot.FillSlots(ResultFields(m), ResultSlots(m, into));
    var _ :- iprot.ReadEnd(MessageEnd);
    r := Good(Picked(m, name, Shown(result)));
  }

  // ---------- one request, one reply ----------

  lemma MessageOpens(name: seq<Byte>, mtype: TMessageType, seqid: int, body: Wire, rest: seq<Token>)
    ensures var ts := Message(name, mtype, seqid, body) + rest;
            ts != [] && ts[0] == MessageBegin(name, mtype, seqid) && ts[1..] == Emit(body) + ([MessageEnd] + rest)
  {
    hide Emit;
  }

  lemma BodySkips(body: Wire, rest: seq<Token>)
    requires WellTyped(body) && body.Fields?
    ensures Skipped(Emit(body) + ([MessageEnd] + rest)) == Good(rest)
  {
    hide Emit, Skip;
    SkipsOneValue(body, [MessageEnd] + rest);
  }

  datatype Request = Request(name: seq<Byte>, mtype: TMessageType, seqid: int, body: Wire)

  predicate Dispatched<S>(svc: Service<S>, q: Request)
  {
    (q.mtype == T_CALL || q.mtype == T_ONEWAY) && q.name in svc.methods
  }

  // A struct in the body; for a known method one that its arguments can be read from
  ghost predicate Readable<S>(svc: Service<S>, q: Request)
  {
    && WellTyped(q.body) && q.body.Fields?
    && (Dispatched(svc, q) ==> Decode(StructOf(svc.methods[q.name].args), None, q.body).Good?)
  }

  function Tokens(q: Request): seq<Token>
  {
    Message(q.name, q.mtype, q.seqid, q.body)
  }

  // ts is exactly one reply to q.
  ghost predicate Answers(ts: seq<Token>, q: Request)
  {
    exists mtype, body :: (mtype == T_REPLY || mtype == T_EXCEPTION) && ts == Message(q.name, mtype, q.seqid, body)
  }

  // The reply that is owed to q
  ghost function Owed<S(!new)>(svc: Service<S>, s: S, q: Request): (S, seq<Token>)
    requires SoundService(svc) && Readable(svc, q)
  {
    if q.mtype != T_CALL && q.mtype != T_ONEWAY then (s, Refusal(q.name, q.seqid, [], INVALID_MESSAGE_TYPE))
    else if q.name !in svc.methods then (s, Refusal(q.name, q.seqid, InvalidName(q.name), UNKNOWN_METHOD))
    else
      var m := svc.methods[q.name];
      var args := Decode(StructOf(m.args), None, q.body).value;
      var (next, h) := svc.call(s, q.name, args);
      assert Possible(m, svc.call(s, q.name, args).1);
      (next, Reply(m, q.name, q.seqid, h))
  }

  // Any readable request, also one with a wrong type or an unknown name, is consumed whole and
  // answered by exactly one message with its name and sequence number.
  lemma ServesOne<S(!new)>(svc: Service<S>, s: S, q: Request, rest: seq<Token>)
    requires SoundService(svc) && Readable(svc, q)
    ensures var (next, reply) := Owed(svc, s, q);
            Served(svc, s, Tokens(q) + rest) == Good(Answer(next, reply, rest)) && Answers(reply, q)
  {
    hide Emit, Skip, ReadVal, Decode, ToWire, SoundMethod, Possible, ResultOf, InvalidName, Skipped, WellTyped;
    MessageOpens(q.name, q.mtype, q.seqid, q.body, rest);
    BodySkips(q.body, rest);
    if Dispatched(svc, q) {
      ReadDecodes(StructOf(svc.methods[q.name].args), None, q.body, [MessageEnd] + rest);
    }
  }

  // ---------- fidelity ----------

  // What the client has after the call: the handler's value merged into the object that was
  // passed, a declared exception, or a TApplicationException for any other
  function Delivered(m: MethodSpec, into: Option<Val>, h: Handled): CallResult
    requires Possible(m, h)
  {
    match h
    case Returned(v) => Value(Merge(m.success.value, into, v))
    case ReturnedVoid => NoValue
    case Raised(i, x) => Thrown(i, x)
    case OtherException(what) => AppError(what, UNKNOWN)
  }

  // The value is delivered as it is into a fresh object, and otherwise exactly into one that holds
  // nothing, at any depth, that the value does not set.
  lemma ValueIsDelivered(m: MethodSpec, into: Option<Val>, v: Val)
    requires Possible(m, Returned(v))
    ensures into == None ==> Delivered(m, into, Returned(v)) == Value(v)
    ensures Delivered(m, into, Returned(v)) == Value(v) <==> Covered(m.success.value, into, v)
  {
    hide Merge, Covered;
    MergeIntoFresh(m.success.value, v);
    MergeIsExact(m.success.value, into, v);
  }

  lemma {:induction false} FirstThrownIs(slots: seq<Option<Val>>, i: nat, k: nat)
    requires i <= k < |slots| && slots[k].Some? && forall j :: 0 <= j < k ==> slots[j] == None
    ensures FirstThrown(slots, i) == Some(Thrown(k, slots[k].value))
    decreases k - i
  {
    if i == k {
    } else {
      FirstThrownIs(slots, i + 1, k);
    }
  }

  lemma {:induction false} NothingThrown(slots: seq<Option<Val>>, i: nat)
    requires i <= |slots| && forall j :: 0 <= j < |slots| ==> slots[j] == None
    ensures FirstThrown(slots, i) == None
    decreases |slots| - i
  {
    if i == |slots| {
    } else {
      NothingThrown(slots, i + 1);
    }
  }

  // The result object after it has been read
  ghost function ReadBack(m: MethodSpec, into: Option<Val>, h: Handled): (r: Filled)
    requires Possible(m, h) && !h.OtherException?
    ensures |r.slots| == |ResultFields(m)|
  {
    ResultIsTyped(m, h);
    var fs, slots := ResultFields(m), ResultOf(m, h).slots;
    Filled(MergeSlots(fs, ResultSlots(m, into), slots, |fs|), SetBelow(slots, |fs|))
  }

  // A field is looked at exactly when it was written, and then as it has been merged.
  lemma ShowsMerged(m: MethodSpec, into: Option<Val>, h: Handled, i: nat)
    requires Possible(m, h) && !h.OtherException? && i < |ResultFields(m)|
    ensures TypedResult(m, ResultOf(m, h))
    ensures var slot := ResultOf(m, h).slots[i];
            Shown(ReadBack(m, into, h))[i] == if slot == None then None
              else Some(MergeField(ResultFields(m)[i], ResultSlots(m, into)[i], slot.value))
  {
    hide Typed, MergeField, Possible, ResultOf, ResultSlots, ResultFields, FirstSet;
    ResultIsTyped(m, h);
  }

  lemma ShowsOne(m: MethodSpec, into: Option<Val>, h: Handled)
    requires Possible(m, h) && !h.OtherException?
    ensures var r, none := Shown(ReadBack(m, into, h)), Fresh(|ResultFields(m)|);
            if h.Returned? then r == none[0 := Some(Merge(m.success.value, into, h.value))]
            else if h.Raised? then r == none[FirstThrow(m) + h.which := Some(h.exception)]
            else r == none
  {
    hide Merge, Shown, ReadBack;
    forall i: nat | i < |ResultFields(m)|
      ensures ResultOf(m, h).slots[i] == None ==> Shown(ReadBack(m, into, h))[i] == None
    {
      ShowsMerged(m, into, h, i);
    }
    if h.Returned? {
      ShowsMerged(m, into, h, 0);
    } else if h.Raised? {
      var k := FirstThrow(m) + h.which;
      ShowsMerged(m, into, h, k);
      FieldIntoFresh(ResultFields(m)[k], h.exception);
    }
  }

  lemma PicksWhatHappened(m: MethodSpec, name: seq<Byte>, into: Option<Val>, h: Handled)
    requires Possible(m, h) && !h.OtherException?
    ensures Picked(m, name, Shown(ReadBack(m, into, h))) == Delivered(m, into, h)
  {
    hide Typed, Merge, Shown, ReadBack;
    ShowsOne(m, into, h);
    var slots, first := Shown(ReadBack(m, into, h)), FirstThrow(m);
    if h.Raised? {
      FirstThrownIs(slots[first..], 0, h.which);
    } else if h.ReturnedVoid? {
      NothingThrown(slots[first..], 0);
    }
  }

  lemma ResultFieldsSound(m: MethodSpec)
    requires SoundMethod(m)
    ensures Sound(StructOf(ResultFields(m)))
  {
    var fs := ResultFields(m);
    assert forall i :: 0 <= i < |fs| ==> fs[i].fid == (if m.success.Some? then i else i + 1);
  }

  lemma ResultReads(m: MethodSpec, into: Option<Val>, h: Handled, rest: seq<Token>)
    requires SoundMethod(m) && Possible(m, h) && !h.OtherException?
    ensures TypedResult(m, ResultOf(m, h))
    ensures ReadResult(m, into, Emit(ToWire(StructOf(ResultFields(m)), ResultOf(m, h))) + rest)
         == Good((ReadBack(m, into, h), rest))
  {
    hide ReadSlots, MergeSlots, SetBelow, EmitFields, ToFields, Possible, ResultOf, ResultSlots, ResultFields;
    ResultIsTyped(m, h);
    ResultFieldsSound(m);
    var fs, v := ResultFields(m), ResultOf(m, h);
    var before, ws := ResultSlots(m, into), ToFields(fs, v.slots, 0);
    WrittenFieldsFill(fs, before, v.slots, 0, rest);
    NothingMerged(fs, before, v.slots);
    assert Emit(Fields(ws)) + rest == [StructBegin] + (EmitFields(ws) + ([FieldStop, StructEnd] + rest));
  }

  lemma ErrorIsFaithful(m: MethodSpec, name: seq<Byte>, seqid: int, into: Option<Val>, what: seq<Byte>,
          rest: seq<Token>)
    ensures Received(m, name, into, Refusal(name, seqid, what, UNKNOWN) + rest) == Good((AppError(what, UNKNOWN), rest))
  {
    hide Emit, ReadVal, ToWire, Picked, Skipped, ReadResult, Shown;
    var x := AppException(what, UNKNOWN);
    MessageOpens(name, T_EXCEPTION, seqid, ToWire(APP_EXCEPTION, x), rest);
    ReadInvertsWrite(APP_EXCEPTION, x, [MessageEnd] + rest);
  }

  // The client makes of the reply what the handler did, with any object to return.
  lemma ReplyIsFaithful(m: MethodSpec, name: seq<Byte>, seqid: int, into: Option<Val>, h: Handled, rest: seq<Token>)
    requires SoundMethod(m) && Possible(m, h)
    ensures Received(m, name, into, Reply(m, name, seqid, h) + rest) == Good((Delivered(m, into, h), rest))
  {
    hide Emit, ReadVal, ToWire, Possible, Picked, ResultOf, SoundMethod, Skipped, ReadResult, Shown, ReadBack, Message,
        AppErrorOf, Merge, ResultFields;
    match h
    case OtherException(what) => ErrorIsFaithful(m, name, seqid, into, what, rest);
    case _ =>
      ResultIsTyped(m, h);
      var sh, v := StructOf(ResultFields(m)), ResultOf(m, h);
      MessageOpens(name, T_REPLY, seqid, ToWire(sh, v), rest);
      ResultReads(m, into, h, [MessageEnd] + rest);
      PicksWhatHappened(m, name, into, h);
  }

  // A call with its arguments and the object to return, or None for a fresh one
  datatype Call = Call(name: seq<Byte>, args: Val, into: Option<Val>)

  // Two streams between a client and a server in state s
  datatype Link<!S> = Link(state: S, requests: seq<Token>, replies: seq<Token>)

  ghost predicate WellFormedCall<S>(svc: Service<S>, c: Call)
  {
    c.name in svc.methods && Typed(StructOf(svc.methods[c.name].args), c.args)
  }

  // send, process and recv
  ghost function Exchange<S(!new)>(svc: Service<S>, link: Link<S>, c: Call): Outcome<(Link<S>, CallResult)>
    requires SoundService(svc) && WellFormedCall(svc, c)
  {
    var m := svc.methods[c.name];
    var requests := link.requests + Message(c.name, T_CALL, 0, ToWire(StructOf(m.args), c.args));
    var answer :- Served(svc, link.state, requests);
    var (result, replies) :- Received(m, c.name, c.into, link.replies + answer.reply);
    Good((Link(answer.state, answer.rest, replies), result))
  }

  // One call over empty streams leaves them empty and returns what calling the handler returns.
  lemma CallIsFaithful<S(!new)>(svc: Service<S>, s: S, c: Call)
    requires SoundService(svc) && WellFormedCall(svc, c)
    ensures Possible(svc.methods[c.name], svc.call(s, c.name, c.args).1)
    ensures var (next, h) := svc.call(s, c.name, c.args);
            Exchange(svc, Link(s, [], []), c) == Good((Link(next, [], []), Delivered(svc.methods[c.name], c.into, h)))
  {
    hide Emit, ReadVal, ToWire, Decode, Reply, Received, Possible, Sound;
    var m := svc.methods[c.name];
    var sh := StructOf(m.args);
    var body := ToWire(sh, c.args);
    assert SoundMethod(m) && Possible(m, svc.call(s, c.name, c.args).1);
    WrittenIsWellTyped(sh, c.args);
    DecodeInvertsToWire(sh, c.args);
    var q := Request(c.name, T_CALL, 0, body);
    IsStruct(sh, c.args);
    ServesOne(svc, s, q, []);
    var h := svc.call(s, c.name, c.args).1;
    ReplyIsFaithful(m, c.name, 0, c.into, h, []);
    assert [] + Tokens(q) == Tokens(q) + [];
    var reply := Reply(m, c.name, 0, h);
    assert [] + reply == reply + [];
  }

  lemma IsStruct(sh: Shape, v: Val)
    requires sh.StructOf? && Typed(sh, v)
    ensures ToWire(sh, v).Fields?
  {
  }

  // What the handlers do when they are called directly
  ghost function Direct<S(!new)>(svc: Service<S>, s: S, calls: seq<Call>): (S, seq<CallResult>)
    requires SoundService(svc) && forall c :: c in calls ==> WellFormedCall(svc, c)
  {
    if calls == [] then (s, [])
    else
      assert WellFormedCall(svc, calls[0]);
      var m := svc.methods[calls[0].name];
      var (next, h) := svc.call(s, calls[0].name, calls[0].args);
      assert Possible(m, svc.call(s, calls[0].name, calls[0].args).1);
      var (end, results) := Direct(svc, next, calls[1..]);
      (end, [Delivered(m, calls[0].into, h)] + results)
  }

  ghost function Remote<S(!new)>(svc: Service<S>, link: Link<S>, calls: seq<Call>): Outcome<(Link<S>, seq<CallResult>)>
    requires SoundService(svc) && forall c :: c in calls ==> WellFormedCall(svc, c)
    decreases |calls|
  {
    if calls == [] then Good((link, []))
    else
      var (next, result) :- Exchange(svc, link, calls[0]);
      var (end, results) :- Remote(svc, next, calls[1..]);
      Good((end, [result] + results))
  }

  // Any run of calls with well-formed arguments gives the values and exceptions that calling the
  // handlers directly gives, and ends with both streams empty.
  lemma {:induction false} RpcFidelity<S(!new)>(svc: Service<S>, s: S, calls: seq<Call>)
    requires SoundService(svc) && forall c :: c in calls ==> WellFormedCall(svc, c)
    ensures var (end, results) := Direct(svc, s, calls);
            Remote(svc, Link(s, [], []), calls) == Good((Link(end, [], []), results))
    decreases |calls|
  {
    hide Exchange, WellFormedCall, SoundService;
    if calls == [] {
    } else {
      CallIsFaithful(svc, s, calls[0]);
      RpcFidelity(svc, svc.call(s, calls[0].name, calls[0].args).0, calls[1..]);
    }
  }

  // ---------- any requests ----------

  function AllTokens(qs: seq<Request>): seq<Token>
  {
    if qs == [] then [] else Tokens(qs[0]) + AllTokens(qs[1..])
  }

  ghost function ServedTimes<S(!new)>(svc: Service<S>, s: S, n: nat,
          ts: seq<Token>): Outcome<(seq<seq<Token>>, seq<Token>)>
    requires SoundService(svc)
  {
    if n == 0 then Good(([], ts))
    else
      var a :- Served(svc, s, ts);
      var (replies, rest) :- ServedTimes(svc, a.state, n - 1, a.rest);
      Good(([a.reply] + replies, rest))
  }

  // A queue of readable requests, of any kind, is served to the end, and the k-th reply is
  // exactly one message with the name and sequence number of the k-th request.
  lemma {:induction false} ServesAll<S(!new)>(svc: Service<S>, s: S, qs: seq<Request>)
    requires SoundService(svc) && forall q :: q in qs ==> Readable(svc, q)
    ensures var r := ServedTimes(svc, s, |qs|, AllTokens(qs));
            && r.Good? && |r.value.0| == |qs| && r.value.1 == []
            && forall k :: 0 <= k < |qs| ==> Answers(r.value.0[k], qs[k])
    decreases |qs|
  {
    hide Served, Tokens, Readable, SoundService, Owed, Answers;
    if qs == [] {
    } else {
      ServesOne(svc, s, qs[0], AllTokens(qs[1..]));
      ServesAll(svc, Owed(svc, s, qs[0]).0, qs[1..]);
    }
  }
}
