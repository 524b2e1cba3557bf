// An entry read through the interface without inflating: open, any reads and close.
module StoredSessions {
  import opened Bytes
  import opened ByteStreams
  import opened Options
  import opened Crc
  import opened ZipFormat
  import opened StoredRead
  import opened EntryReaders
  import opened Sessions

  function Reads(lens: seq<nat>): (calls: seq<Call>)
    ensures |calls| == |lens|
  {
    if lens == [] then [] else [ReadFile(lens[0])] + Reads(lens[1..])
  }

  function Contents(rs: seq<ReadResult>): (replies: seq<Reply>)
    ensures |replies| == |rs|
  {
    if rs == [] then [] else [Content(rs[0].out, rs[0].ok)] + Contents(rs[1..])
  }

  lemma {:induction false} RunJoins(a: Archive, crcStep: CrcStep, s: Session, first: seq<Call>, more: seq<Call>)
    ensures var (mid, replies) := RunSession(a, crcStep, s, first);
            var (end, others) := RunSession(a, crcStep, mid, more);
            RunSession(a, crcStep, s, first + more) == (end, replies + others)
    decreases |first|
  {
    hide Do;
    if first == [] {
      assert first + more == more;
      assert [] + RunSession(a, crcStep, s, more).1 == RunSession(a, crcStep, s, more).1;
    } else {
      assert (first + more)[0] == first[0] && (first + more)[1..] == first[1..] + more;
      var (next, reply) := Do(a, crcStep, s, first[0]);
      RunJoins(a, crcStep, next, first[1..], more);
      var (mid, replies) := RunSession(a, crcStep, next, first[1..]);
      var (end, others) := RunSession(a, crcStep, mid, more);
      assert ([reply] + replies) + others == [reply] + (replies + others);
    }
  }

  lemma RunOne(a: Archive, crcStep: CrcStep, s: Session, call: Call)
    ensures var (end, reply) := Do(a, crcStep, s, call);
            RunSession(a, crcStep, s, [call]) == (end, [reply])
  {
    hide Do;
    var (end, reply) := Do(a, crcStep, s, call);
    assert [call][1..] == [] && RunSession(a, crcStep, end, []) == (end, []);
    assert [reply] + [] == [reply];
  }

  lemma ContentsCons(r: ReadResult, rs: seq<ReadResult>)
    ensures Contents([r] + rs) == [Content(r.out, r.ok)] + Contents(rs)
  {
    assert ([r] + rs)[1..] == rs;
  }

  lemma RoundStaysRaw(d: seq<Byte>, before: nat, s: ReadState, room: nat)
    ensures Round(d, before, s, room).state.raw == s.raw
  {
    hide Crc32;
  }

  lemma {:induction false} LoopStaysRaw(d: seq<Byte>, before: nat, s: ReadState, want: nat)
    ensures ReadLoop(d, before, s, want).state.raw == s.raw
    decreases want
  {
    if want == 0 {
    } else {
      hide Round;
      var v := Round(d, before, s, want);
      RoundStaysRaw(d, before, s, want);
      if v.out != [] {
        LoopStaysRaw(d, before, v.state, want - |v.out|);
      }
    }
  }

  lemma ReadStaysRaw(d: seq<Byte>, before: nat, s: ReadState, len: nat)
    ensures Read(d, before, s, len).state.raw == s.raw
  {
    hide ReadLoop;
    LoopStaysRaw(d, before, s, Room(s, len));
  }

  // Reading an open entry that is stored, or raw, replies what StoredRead delivers, and moves
  // nothing else.
  lemma {:induction false} ReadsReply(a: Archive, crcStep: CrcStep, s: Session, lens: seq<nat>)
    requires s.reading.Some? && (s.reading.value.method_ == 0 || s.reading.value.state.raw)
    ensures var o := s.reading.value;
            var (rs, t) := ReadMany(a.data, a.byteBefore, o.state, lens);
            RunSession(a, crcStep, s, Reads(lens)) == (s.(reading := Some(o.(state := t))), Contents(rs))
    decreases |lens|
  {
    hide Read, Room;
    if lens == [] {
    } else {
      ReadStaysRaw(a.data, a.byteBefore, s.reading.value.state, lens[0]);
      var r := Read(a.data, a.byteBefore, s.reading.value.state, lens[0]);
      var next := s.(reading := Some(s.reading.value.(state := r.state)));
      assert Do(a, crcStep, s, ReadFile(lens[0])) == (next, Content(r.out, r.ok));
      ReadsReply(a, crcStep, next, lens[1..]);
      ContentsCons(r, ReadMany(a.data, a.byteBefore, r.state, lens[1..]).0);
    }
  }

  // The replies are consecutive pieces of body from k on, each as long as was asked for or as
  // there is left.
  ghost predicate Deals(body: seq<Byte>, k: nat, lens: seq<nat>, replies: seq<Reply>)
    requires k <= |body|
    decreases |lens|
  {
    && |replies| == |lens|
    && (lens != [] ==>
          var m := Min(lens[0], |body| - k);
          replies[0] == Content(body[k..k + m], true) && Deals(body, k + m, lens[1..], replies[1..]))
  }

  lemma {:induction false} PiecesDeal(body: seq<Byte>, k: nat, lens: seq<nat>, rs: seq<ReadResult>)
    requires k <= |body| && Pieces(body, k, lens, rs)
    ensures Deals(body, k, lens, Contents(rs))
    decreases |lens|
  {
    if lens == [] {
    } else {
      var m := Min(lens[0], |body| - k);
      PiecesDeal(body, k + m, lens[1..], rs[1..]);
      assert Contents(rs)[1..] == Contents(rs[1..]);
    }
  }

  // All that is dealt is one piece of body.
  function Dealt(replies: seq<Reply>): seq<Byte>
  {
    if replies == [] then []
    else (if replies[0].Content? then replies[0].bytes else []) + Dealt(replies[1..])
  }

  lemma DealtUnfolds(replies: seq<Reply>)
    requires replies != [] && replies[0].Content?
    ensures Dealt(replies) == replies[0].bytes + Dealt(replies[1..])
  {
  }

  lemma PieceAndRest(body: seq<Byte>, k: nat, m: nat, end: nat)
    requires k <= k + m <= end <= |body|
    ensures body[k..k + m] + body[k + m..end] == body[k..end]
  {
  }

  lemma SumSplits(n: nat, k: nat, lens: seq<nat>)
    requires k <= n && lens != []
    ensures Min(n, k + Sum(lens)) == Min(n, k + Min(lens[0], n - k) + Sum(lens[1..]))
  {
    assert Sum(lens) == lens[0] + Sum(lens[1..]);
  }

  lemma {:induction false} DealsOut(body: seq<Byte>, k: nat, lens: seq<nat>, replies: seq<Reply>)
    requires k <= |body| && Deals(body, k, lens, replies)
    ensures Dealt(replies) == body[k..Min(|body|, k + Sum(lens))]
    decreases |lens|
  {
    if lens == [] {
    } else {
      hide Sum, Dealt;
      var m := Min(lens[0], |body| - k);
      DealsOut(body, k + m, lens[1..], replies[1..]);
      DealtUnfolds(replies);
      SumSplits(|body|, k, lens);
      PieceAndRest(body, k, m, Min(|body|, k + Sum(lens)));
    }
  }

  // What closing replies when so much was asked for. A raw entry is not checked.
  function CloseReply(raw: bool, body: seq<Byte>, asked: nat, crcWait: nat, step: CrcStep): Reply
  {
    Returned(if !raw && asked >= |body| && Crc32(step, 0, body) != crcWait then -105 else 0)
  }

  function OpenReadClose(raw: bool, lens: seq<nat>): seq<Call>
  {
    [OpenFile(raw)] + Reads(lens) + [CloseFile]
  }

  lemma OpenedStep(e: Entry, varSize: nat, raw: bool, step: CrcStep)
    ensures var s := OpenedState(e, varSize, raw, step);
            s.crcStep == step && s.raw == raw
  {
  }

  lemma CloseIsVerdict(t: ReadState)
    ensures CloseError(t) == UNZ_CRCERROR || CloseError(t) == UNZ_OK
  {
  }

  // bzip2 is not built in: its entries are always read raw.
  predicate ReadRaw(raw: bool, method_: nat)
  {
    raw || method_ == Z_BZIP2ED
  }

  // Opening an entry whose data is body, stored or raw, any reads and closing: opening succeeds, the
  // reads deal out body in order, closing gives the crc verdict, and the cursor has not moved.
  lemma EntryReadsBack(a: Archive, step: CrcStep, s: Session, raw: bool, body: seq<Byte>, crcWait: nat, lens: seq<nat>)
    requires var e := s.cursor.entry;
             var p := e.offsetCurfile + a.byteBefore;
             var r := ReadRaw(raw, e.info.method_);
             && s.cursor.ok && (e.info.method_ == 0 || r) && Coherent(a.data, p, e.info)
             && Handed(a.data, a.byteBefore, OpenedState(e, LocalVarSize(a.data, p), r, step), body, 0, crcWait, step)
    ensures var (end, replies) := RunSession(a, step, s, OpenReadClose(raw, lens));
            && end == s.(reading := None) && |replies| == |lens| + 2 && replies[0] == Returned(UNZ_OK)
            && Deals(body, 0, lens, replies[1..|lens| + 1])
            && replies[|lens| + 1]
            == CloseReply(ReadRaw(raw, s.cursor.entry.info.method_), body, Sum(lens), crcWait, step)
  {
    hide Handed, Coherent, LocalVarSize, OpenedState, Crc32, Deals, CloseError, ReadMany, RunSession, Sum, Pieces;
    var e := s.cursor.entry;
    var varSize, r := LocalVarSize(a.data, e.offsetCurfile + a.byteBefore), ReadRaw(raw, e.info.method_);
    var state := OpenedState(e, varSize, r, step);
    OpenedStep(e, varSize, r, step);
    var start := s.(reading := Some(OpenEntry(e.info.method_, state, false)));
    RunOne(a, step, s, OpenFile(raw));
    var (rs, t) := ReadMany(a.data, a.byteBefore, state, lens);
    var read := s.(reading := Some(OpenEntry(e.info.method_, t, false)));
    ReadsReply(a, step, start, lens);
    RunOne(a, step, read, CloseFile);
    RunJoins(a, step, s, [OpenFile(raw)], Reads(lens));
    RunJoins(a, step, s, [OpenFile(raw)] + Reads(lens), [CloseFile]);
    RunOfReads(a.data, a.byteBefore, state, body, 0, crcWait, step, lens);
    PiecesDeal(body, 0, lens, rs);
    CloseChecksCrc(a.data, a.byteBefore, state, body, crcWait, lens);
    CloseIsVerdict(t);
  }
}
