// Reading the content of an opened entry without decompression (stored entries and raw mode).
module StoredRead {
  import opened Bytes
  import opened ByteStreams
  import opened Crc

  const UNZ_BUFSIZE: nat := 16384

  // file_in_zip64_read_info_s; buffered is the unread part of read_buffer
  datatype ReadState = ReadState(
    posInZipfile: nat, restCompressed: nat, restUncompressed: nat, buffered: seq<Byte>,
    totalOut: nat, crc: nat, crcWait: nat, raw: bool, crcStep: CrcStep)

  datatype ReadResult = ReadResult(out: seq<Byte>, state: ReadState, ok: bool)

  function Position(s: ReadState, before: nat): nat
  {
    s.posInZipfile + before
  }

  function Pending(s: ReadState): nat
  {
    |s.buffered| + s.restCompressed
  }

  predicate NeedsRefill(s: ReadState)
  {
    s.buffered == [] && s.restCompressed > 0
  }

  function Chunk(s: ReadState): nat
  {
    Min(UNZ_BUFSIZE, s.restCompressed)
  }

  function Refilled(d: seq<Byte>, before: nat, s: ReadState): ReadState
    requires Position(s, before) + Chunk(s) <= |d|
  {
    var p, n := Position(s, before), Chunk(s);
    s.(posInZipfile := s.posInZipfile + n, restCompressed := s.restCompressed - n, buffered := d[p..p + n])
  }

  // uDoCopy bytes go to the caller; rest_read_uncompressed is an unsigned 64-bit field.
  function Copied(s: ReadState, k: nat): ReadState
    requires k <= |s.buffered|
  {
    s.(buffered := s.buffered[k..], totalOut := s.totalOut + k, crc := Crc32(s.crcStep, s.crc, s.buffered[..k]),
       restUncompressed := (s.restUncompressed - k) % TWO64)
  }

  // One round of the loop of unzReadCurrentFile: fetch a block if there is nothing left to
  // copy, then copy what fits into room bytes.
  function Round(d: seq<Byte>, before: nat, s: ReadState, room: nat): (r: ReadResult)
    ensures |r.out| <= room && (!r.ok ==> r.out == [])
  {
    if NeedsRefill(s) && Position(s, before) + Chunk(s) > |d| then ReadResult([], s, false)
    else
      var t := if NeedsRefill(s) then Refilled(d, before, s) else s;
      if t.buffered == [] then ReadResult([], t, true)
      else
        var k := Min(room, |t.buffered|);
        ReadResult(t.buffered[..k], Copied(t, k), true)
  }

  // The whole loop, with want bytes of room left.
  function ReadLoop(d: seq<Byte>, before: nat, s: ReadState, want: nat): ReadResult
    decreases want
  {
    if want == 0 then ReadResult([], s, true)
    else
      var v := Round(d, before, s, want);
      if v.out == [] then v
      else
        var r := ReadLoop(d, before, v.state, want - |v.out|);
        ReadResult(v.out + r.out, r.state, r.ok)
  }

  // How much room the caller's buffer is taken to have.
  function Room(s: ReadState, len: nat): nat
  {
    if s.raw then Min(len, Pending(s)) else Min(len, s.restUncompressed)
  }

  function Read(d: seq<Byte>, before: nat, s: ReadState, len: nat): ReadResult
  {
    ReadLoop(d, before, s, Room(s, len))
  }

  // ---------- what a read delivers ----------

  // The bytes a state still has to deliver, as far as the file holds them.
  function Content(d: seq<Byte>, before: nat, s: ReadState): seq<Byte>
  {
    s.buffered + Delivered(d, Position(s, before), s.restCompressed)
  }

  // In a truncated file only whole 16 KB blocks can be fetched.
  function Fetchable(d: seq<Byte>, before: nat, s: ReadState): nat
  {
    var p := Position(s, before);
    |s.buffered| +
    if p + s.restCompressed <= |d| then s.restCompressed
    else if p > |d| then 0
    else (|d| - p) / 16384 * 16384
  }

  lemma FetchableInContent(d: seq<Byte>, before: nat, s: ReadState)
    ensures Fetchable(d, before, s) <= |Content(d, before, s)| <= Pending(s)
  {
  }

  lemma RefillKeepsContent(d: seq<Byte>, before: nat, s: ReadState)
    requires NeedsRefill(s) && Position(s, before) + Chunk(s) <= |d|
    ensures Content(d, before, Refilled(d, before, s)) == Content(d, before, s)
    ensures Fetchable(d, before, Refilled(d, before, s)) == Fetchable(d, before, s)
  {
    var p, n, t := Position(s, before), Chunk(s), Refilled(d, before, s);
    if p + s.restCompressed > |d| {
      assert n == UNZ_BUFSIZE;
      assert |d| - p == (|d| - (p + n)) + UNZ_BUFSIZE;
    }
  }

  lemma NoWholeBlock(d: seq<Byte>, before: nat, s: ReadState)
    requires NeedsRefill(s) && Position(s, before) + Chunk(s) > |d|
    ensures Fetchable(d, before, s) == 0
  {
  }

  // Handing out the first bytes of the content of s leaves t, with every counter in step.
  ghost predicate HandsOut(d: seq<Byte>, before: nat, s: ReadState, out: seq<Byte>, t: ReadState)
  {
    && Content(d, before, s) == out + Content(d, before, t)
    && Pending(t) == Pending(s) - |out|
    && Fetchable(d, before, t) == Fetchable(d, before, s) - |out|
    && t.totalOut == s.totalOut + |out|
    && t.crc == Crc32(s.crcStep, s.crc, out)
    && t.restUncompressed == (s.restUncompressed - |out|) % TWO64
    && t.raw == s.raw && t.crcWait == s.crcWait && t.crcStep == s.crcStep
  }

  lemma CopyHandsOut(d: seq<Byte>, before: nat, s: ReadState, k: nat)
    requires k <= |s.buffered|
    ensures HandsOut(d, before, s, s.buffered[..k], Copied(s, k))
  {
    assert s.buffered == s.buffered[..k] + s.buffered[k..];
  }

  lemma HandOutsJoin(d: seq<Byte>, before: nat, s: ReadState, out1: seq<Byte>, t: ReadState, out2: seq<Byte>,
          u: ReadState)
    requires HandsOut(d, before, s, out1, t) && HandsOut(d, before, t, out2, u)
    ensures HandsOut(d, before, s, out1 + out2, u)
  {
    CrcOfPieces(s.crcStep, s.crc, out1, out2);
    CountersAdd(s.restUncompressed, |out1|, |out2|);
  }

  // A read of want bytes delivers the next bytes of the content, as many as fit and are there; it
  // fails exactly when it has to touch a block that the file does not hold completely.
  ghost predicate Delivers(d: seq<Byte>, before: nat, s: ReadState, want: nat, r: ReadResult)
  {
    var m := Min(want, Pending(s));
    && (r.ok <==> m <= Fetchable(d, before, s))
    && |r.out| == Min(m, Fetchable(d, before, s))
    && HandsOut(d, before, s, r.out, r.state)
  }

  lemma StopDelivers(d: seq<Byte>, before: nat, s: ReadState, want: nat, ok: bool)
    requires s.restUncompressed < TWO64
    requires if ok then want == 0 || Pending(s) == 0 else want > 0 && Pending(s) > 0 && Fetchable(d, before, s) == 0
    ensures Delivers(d, before, s, want, ReadResult([], s, ok))
  {
    FetchableInContent(d, before, s);
  }

  lemma NothingHandsOut(d: seq<Byte>, before: nat, s: ReadState)
    requires s.restUncompressed < TWO64
    ensures HandsOut(d, before, s, [], s)
  {
    hide Content, Fetchable;
  }

  lemma RefillHandsOut(d: seq<Byte>, before: nat, s: ReadState, out: seq<Byte>, u: ReadState)
    requires NeedsRefill(s) && Position(s, before) + Chunk(s) <= |d|
    requires HandsOut(d, before, Refilled(d, before, s), out, u)
    ensures HandsOut(d, before, s, out, u)
  {
    hide Content, Fetchable;
    RefillKeepsContent(d, before, s);
  }

  lemma RoundHandsOut(d: seq<Byte>, before: nat, s: ReadState, room: nat)
    requires room > 0 && s.restUncompressed < TWO64
    ensures var v := Round(d, before, s, room);
            && HandsOut(d, before, s, v.out, v.state)
            && (v.out == [] ==>
                  v.state == s && if v.ok then Pending(s) == 0 else Pending(s) > 0 && Fetchable(d, before, s) == 0)
  {
    hide HandsOut, Content, Fetchable, Copied;
    NothingHandsOut(d, before, s);
    if NeedsRefill(s) {
      if Position(s, before) + Chunk(s) > |d| {
        NoWholeBlock(d, before, s);
      } else {
        var t := Refilled(d, before, s);
        var k := Min(room, |t.buffered|);
        CopyHandsOut(d, before, t, k);
        RefillHandsOut(d, before, s, t.buffered[..k], Copied(t, k));
      }
    } else if s.buffered != [] {
      CopyHandsOut(d, before, s, Min(room, |s.buffered|));
    }
  }

  lemma JoinDelivers(d: seq<Byte>, before: nat, s: ReadState, out: seq<Byte>, t: ReadState, want: nat, r: ReadResult)
    requires |out| <= want && HandsOut(d, before, s, out, t) && Delivers(d, before, t, want - |out|, r)
    ensures Delivers(d, before, s, want, ReadResult(out + r.out, r.state, r.ok))
  {
    HandOutsJoin(d, before, s, out, t, r.out, r.state);
  }

  lemma {:induction false} ReadLoopDelivers(d: seq<Byte>, before: nat, s: ReadState, want: nat)
    requires s.restUncompressed < TWO64
    ensures Delivers(d, before, s, want, ReadLoop(d, before, s, want))
    decreases want
  {
    if want == 0 {
      StopDelivers(d, before, s, want, true);
    } else {
      var v := Round(d, before, s, want);
      RoundHandsOut(d, before, s, want);
      if v.out == [] {
        StopDelivers(d, before, s, want, v.ok);
      } else {
        ReadLoopDelivers(d, before, v.state, want - |v.out|);
        JoinDelivers(d, before, s, v.out, v.state, want, ReadLoop(d, before, v.state, want - |v.out|));
      }
    }
  }

  lemma CountersAdd(n: nat, k: nat, m: nat)
    ensures ((n - k) % TWO64 - m) % TWO64 == (n - (k + m)) % TWO64
  {
    var q := (n - k) / TWO64;
    assert n - k == q * TWO64 + (n - k) % TWO64;
    var a := (n - k) % TWO64 - m;
    assert n - (k + m) == q * TWO64 + a;
    var b := a / TWO64;
    assert n - (k + m) == (q + b) * TWO64 + a % TWO64;
  }

  // ---------- runs of reads on a stored entry, or on any entry in raw mode ----------

  // The state after k bytes of body were handed out: body is what the entry holds, |body| its
  // compressed size and, unless it is read raw, its uncompressed size as well.
  ghost predicate Handed(d: seq<Byte>, before: nat, s: ReadState, body: seq<Byte>, k: nat, crcWait: nat, step: CrcStep)
  {
    && k <= |body| < TWO64 && s.crcWait == crcWait && s.crcStep == step
    && Position(s, before) + s.restCompressed <= |d|
    && Content(d, before, s) == body[k..]
    && Pending(s) == |body| - k && s.restUncompressed < TWO64 && (!s.raw ==> s.restUncompressed == |body| - k)
    && s.totalOut == k
    && s.crc == Crc32(s.crcStep, 0, body[..k])
  }

  lemma HandingOutAdvances(d: seq<Byte>, before: nat, s: ReadState, body: seq<Byte>, k: nat, crcWait: nat,
          step: CrcStep, out: seq<Byte>, t: ReadState)
    requires Handed(d, before, s, body, k, crcWait, step) && HandsOut(d, before, s, out, t)
    requires Position(t, before) + t.restCompressed <= |d|
    ensures k + |out| <= |body| && out == body[k..k + |out|]
    ensures Handed(d, before, t, body, k + |out|, crcWait, step) && t.raw == s.raw
  {
    var n := |out|;
    assert body[k..][..n] == body[k..k + n] && body[k..][n..] == body[k + n..];
    assert body[..k] + body[k..k + n] == body[..k + n];
    CrcOfPieces(step, 0, body[..k], body[k..k + n]);
  }

  lemma ReadAdvances(d: seq<Byte>, before: nat, s: ReadState, body: seq<Byte>, k: nat, crcWait: nat, step: CrcStep,
          len: nat)
    requires Handed(d, before, s, body, k, crcWait, step)
    ensures var r, m := Read(d, before, s, len), Min(len, |body| - k);
            && r.ok && r.out == body[k..k + m] && r.state.raw == s.raw
            && Handed(d, before, r.state, body, k + m, crcWait, step)
  {
    var r, room := Read(d, before, s, len), Room(s, len);
    ReadLoopDelivers(d, before, s, room);
    ReadLoopStaysInside(d, before, s, room);
    assert Fetchable(d, before, s) == Pending(s);
    HandingOutAdvances(d, before, s, body, k, crcWait, step, r.out, r.state);
  }

  lemma RoundStaysInside(d: seq<Byte>, before: nat, s: ReadState, room: nat)
    ensures var t := Round(d, before, s, room).state;
            Position(t, before) + t.restCompressed == Position(s, before) + s.restCompressed
  {
    hide Crc32;
  }

  lemma {:induction false} ReadLoopStaysInside(d: seq<Byte>, before: nat, s: ReadState, want: nat)
    ensures var t := ReadLoop(d, before, s, want).state;
            Position(t, before) + t.restCompressed == Position(s, before) + s.restCompressed
    decreases want
  {
    if want == 0 {
    } else {
      hide Round;
      var v := Round(d, before, s, want);
      RoundStaysInside(d, before, s, want);
      if v.out != [] {
        ReadLoopStaysInside(d, before, v.state, want - |v.out|);
      }
    }
  }

  function ReadMany(d: seq<Byte>, before: nat, s: ReadState, lens: seq<nat>): (seq<ReadResult>, ReadState)
    decreases |lens|
  {
    if lens == [] then ([], s)
    else
      var r := Read(d, before, s, lens[0]);
      var (rs, t) := ReadMany(d, before, r.state, lens[1..]);
      ([r] + rs, t)
  }

  function Sum(lens: seq<nat>): nat
  {
    if lens == [] then 0 else lens[0] + Sum(lens[1..])
  }

  // Consecutive pieces of body from k on, each of length min(len, bytes left).
  ghost predicate Pieces(body: seq<Byte>, k: nat, lens: seq<nat>, rs: seq<ReadResult>)
    requires k <= |body|
    decreases |lens|
  {
    && |rs| == |lens|
    && (lens != [] ==>
          var m := Min(lens[0], |body| - k);
          rs[0].ok && rs[0].out == body[k..k + m] && Pieces(body, k + m, lens[1..], rs[1..]))
  }

  function After(n: nat, k: nat, lens: seq<nat>): (a: nat)
    requires k <= n
    ensures a == Min(n, k + Sum(lens))
    decreases |lens|
  {
    if lens == [] then k else After(n, Min(n, k + lens[0]), lens[1..])
  }

  lemma {:induction false} RunAdvances(d: seq<Byte>, before: nat, s: ReadState, body: seq<Byte>, k: nat, crcWait: nat,
          step: CrcStep, lens: seq<nat>)
    requires Handed(d, before, s, body, k, crcWait, step)
    ensures var t := ReadMany(d, before, s, lens).1;
            Handed(d, before, t, body, After(|body|, k, lens), crcWait, step) && t.raw == s.raw
    decreases |lens|
  {
    if lens == [] {
    } else {
      ReadAdvances(d, before, s, body, k, crcWait, step, lens[0]);
      var next := Read(d, before, s, lens[0]).state;
      RunAdvances(d, before, next, body, Min(|body|, k + lens[0]), crcWait, step, lens[1..]);
    }
  }

  lemma PiecesCons(body: seq<Byte>, k: nat, len: nat, rest: seq<nat>, r: ReadResult, rs: seq<ReadResult>)
    requires k <= |body| && r.ok && r.out == body[k..k + Min(len, |body| - k)]
    requires Pieces(body, k + Min(len, |body| - k), rest, rs)
    ensures Pieces(body, k, [len] + rest, [r] + rs)
  {
    assert ([len] + rest)[1..] == rest && ([r] + rs)[1..] == rs;
  }

  // Any run of reads hands out consecutive pieces of the data, in raw mode of the compressed data.
  lemma {:induction false} RunOfReads(d: seq<Byte>, before: nat, s: ReadState, body: seq<Byte>, k: nat, crcWait: nat,
          step: CrcStep, lens: seq<nat>)
    requires Handed(d, before, s, body, k, crcWait, step)
    ensures Pieces(body, k, lens, ReadMany(d, before, s, lens).0)
    decreases |lens|
  {
    if lens == [] {
    } else {
      var r, k' := Read(d, before, s, lens[0]), k + Min(lens[0], |body| - k);
      ReadAdvances(d, before, s, body, k, crcWait, step, lens[0]);
      RunOfReads(d, before, r.state, body, k', crcWait, step, lens[1..]);
      PiecesCons(body, k, lens[0], lens[1..], r, ReadMany(d, before, r.state, lens[1..]).0);
      assert [lens[0]] + lens[1..] == lens;
    }
  }

  // unzCloseCurrentFile reports a bad crc only on a finished, non-raw entry.
  function CloseError(s: ReadState): int
  {
    if s.restUncompressed == 0 && !s.raw && s.crc != s.crcWait then UNZ_CRCERROR else UNZ_OK
  }

  lemma CloseChecksCrc(d: seq<Byte>, before: nat, s: ReadState, body: seq<Byte>, crcWait: nat, lens: seq<nat>)
    requires Handed(d, before, s, body, 0, crcWait, s.crcStep)
    ensures var t := ReadMany(d, before, s, lens).1;
            CloseError(t) == UNZ_CRCERROR <==>
            !s.raw && Sum(lens) >= |body| && Crc32(s.crcStep, 0, body) != crcWait
  {
    RunAdvances(d, before, s, body, 0, crcWait, s.crcStep, lens);
    var t := ReadMany(d, before, s, lens).1;
    var k := Min(|body|, Sum(lens));
    assert k == |body| ==> body[..k] == body;
  }
}
