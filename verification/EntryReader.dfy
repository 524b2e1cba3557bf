// The object behind an opened entry (file_in_zip64_read_info_s): its read loop over the 16 KB
// buffer is proved to compute StoredRead.Read.
module EntryReaders {
  import opened Bytes
  import opened ByteStreams
  import opened Crc
  import opened ZipFormat
  import opened StoredRead

  class FileInZip {
    const stream: ByteStream
    const byteBefore: nat
    const readBuffer: array<Byte>
    const crcWait: nat
    const raw: bool
    const method_: nat
    const crcStep: CrcStep
    var nextIn: nat
    var availIn: nat
    var posInZipfile: nat
    var totalOut: nat
    var crc32: nat
    var restReadCompressed: nat
    var restReadUncompressed: nat

    constructor (stream: ByteStream, byteBefore: nat, e: Entry, varSize: nat, raw: bool, crcStep: CrcStep)
      ensures Valid() && fresh(readBuffer) && this.stream == stream && this.byteBefore == byteBefore
      ensures State() == OpenedState(e, varSize, raw, crcStep) && method_ == e.info.method_
    {
      this.stream := stream;
      this.byteBefore := byteBefore;
      readBuffer := new Byte[UNZ_BUFSIZE];
      crcWait := e.info.crc;
      this.raw := raw;
      method_ := e.info.method_;
      this.crcStep := crcStep;
      nextIn, availIn, totalOut, crc32 := 0, 0, 0, 0;
      restReadCompressed := e.info.compressedSize;
      restReadUncompressed := e.info.uncompressedSize;
      posInZipfile := e.offsetCurfile + SIZEZIPLOCALHEADER + varSize;
    }

    ghost predicate Valid()
      reads this
    {
      readBuffer.Length == UNZ_BUFSIZE && nextIn + availIn <= UNZ_BUFSIZE
    }

    ghost function State(): ReadState
      reads this, readBuffer
      requires Valid()
    {
      ReadState(posInZipfile, restReadCompressed, restReadUncompressed, readBuffer[nextIn..nextIn + availIn],
                totalOut, crc32, crcWait, raw, crcStep)
    }

    // Seek and read n bytes to the front of the buffer.
    method ReadBlock(p: nat, n: nat) returns (ok: bool)
      requires Valid() && 0 < n <= UNZ_BUFSIZE
      modifies stream, readBuffer
      ensures ok <==> p + n <= |stream.data|
      ensures ok ==> readBuffer[0..n] == stream.data[p..p + n]
    {
      var r := stream.SeekSet(p);
      var got := stream.ReadInto(readBuffer, 0, n);
      ok := got == n;
      assert readBuffer[0..got] == Delivered(stream.data, p, n);
    }

    // Refill the buffer; false is a short read.
    method Refill() returns (ok: bool)
      requires Valid() && NeedsRefill(State())
      modifies this, stream, readBuffer
      ensures Valid()
      ensures ok <==> Position(old(State()), byteBefore) + Chunk(old(State())) <= |stream.data|
      ensures State() == if ok then Refilled(stream.data, byteBefore, old(State())) else old(State())
    {
      assert availIn == |State().buffered| == 0;
      var readThis := UNZ_BUFSIZE;
      if restReadCompressed < readThis {
        readThis := restReadCompressed;
      }
      ok := ReadBlock(posInZipfile + byteBefore, readThis);
      if !ok {
        return;
      }
      posInZipfile := posInZipfile + readThis;
      restReadCompressed := restReadCompressed - readThis;
      nextIn, availIn := 0, readThis;
    }

    // Copy bytes of the buffer to buf[at..].
    method CopyOut(buf: array<Byte>, at: nat, doCopy: nat)
      requires Valid() && doCopy <= availIn && at + doCopy <= buf.Length && buf != readBuffer
      modifies this, buf
      ensures Valid() && State() == Copied(old(State()), doCopy)
      ensures buf[..at + doCopy] == old(buf[..at]) + old(State()).buffered[..doCopy]
      ensures buf[at + doCopy..] == old(buf[at + doCopy..])
    {
      CopyBytes(buf, at, readBuffer, nextIn, doCopy);
      ghost var s := State();
      assert s.buffered[..doCopy] == readBuffer[nextIn..nextIn + doCopy];
      assert s.buffered[doCopy..] == readBuffer[nextIn + doCopy..nextIn + availIn];
      totalOut := totalOut + doCopy;
      crc32 := Crc32(crcStep, crc32, readBuffer[nextIn..nextIn + doCopy]);
      restReadUncompressed := (restReadUncompressed - doCopy) % TWO64;
      availIn := availIn - doCopy;
      nextIn := nextIn + doCopy;
      assert buf[..at + doCopy] == buf[..at] + buf[at..at + doCopy];
    }

    // One round of the read loop with room bytes left in buf from at on.
    method ServeRound(buf: array<Byte>, at: nat, room: nat) returns (ok: bool, served: nat, ghost v: ReadResult)
      requires Valid() && room > 0 && at + room <= buf.Length && buf != readBuffer
      modifies this, stream, readBuffer, buf
      ensures Valid() && v == Round(stream.data, byteBefore, old(State()), room)
      ensures ok == v.ok && State() == v.state && served == |v.out| <= room
      ensures buf[..at + served] == old(buf[..at]) + v.out
      ensures buf[at + served..] == old(buf[at + served..])
    {
      hide Copied;
      v := Round(stream.data, byteBefore, State(), room);
      ok, served := true, 0;
      if availIn == 0 && restReadCompressed > 0 {
        ok := Refill();
      }
      if ok && !(availIn == 0 && restReadCompressed == 0) {
        served := if room < availIn then room else availIn;
        CopyOut(buf, at, served);
      }
    }

    method AvailOut(len: nat) returns (availOut: nat)
      requires Valid()
      ensures availOut == Room(State(), len)
    {
      availOut := len;
      if len > restReadUncompressed && !raw {
        availOut := restReadUncompressed;
      }
      if len > restReadCompressed + availIn && raw {
        availOut := restReadCompressed + availIn;
      }
    }

    // The loop of unzReadCurrentFile.
    method CopyLoop(buf: array<Byte>, room: nat) returns (ok: bool, iRead: nat, ghost r: ReadResult)
      requires Valid() && room <= buf.Length && buf != readBuffer
      modifies this, stream, readBuffer, buf
      ensures Valid() && r == Accumulate(stream.data, byteBefore, old(State()), room, [])
      ensures State() == r.state && ok == r.ok && iRead == |r.out| <= room
      ensures buf[..iRead] == r.out && buf[iRead..] == old(buf[..])[iRead..]
    {
      hide Round;
      ok, iRead := true, 0;
      var availOut := room;
      ghost var v: ReadResult;
      ghost var start := buf[..];
      r := Accumulate(stream.data, byteBefore, State(), room, []);
      while availOut > 0
        invariant ok && Valid() && 0 <= availOut && iRead + availOut == room
        invariant buf[iRead..] == start[iRead..]
        invariant r == Accumulate(stream.data, byteBefore, State(), availOut, buf[..iRead])
      {
        var doCopy;
        ok, doCopy, v := ServeRound(buf, iRead, availOut);
        assert buf[iRead + doCopy..] == start[iRead..][doCopy..];
        if doCopy == 0 {
          return;
        }
        availOut := availOut - doCopy;
        iRead := iRead + doCopy;
      }
    }

    // unzReadCurrentFile on a stored or raw entry. On an error the buffer holds what was
    // copied before it, and the state has moved by as much.
    method ReadCurrentFile(buf: array<Byte>, len: nat) returns (ret: int)
      requires Valid() && (method_ == 0 || raw)
      requires len <= buf.Length && buf != readBuffer
      modifies this, stream, readBuffer, buf
      ensures Valid()
      ensures var r := Read(stream.data, byteBefore, old(State()), len);
              && State() == r.state && |r.out| <= len
              && ret == (if r.ok then |r.out| else UNZ_ERRNO)
              && buf[..|r.out|] == r.out && buf[|r.out|..] == old(buf[..])[|r.out|..]
    {
      if len == 0 {
        return 0;
      }
      var availOut := AvailOut(len);
      AccumulateIsReadLoop(stream.data, byteBefore, State(), availOut, []);
      var ok, iRead, r := CopyLoop(buf, availOut);
      ret := if ok then iRead else UNZ_ERRNO;
    }

    // The check of unzCloseCurrentFile
    method CrcError() returns (err: int)
      requires Valid()
      ensures err == CloseError(State())
    {
      err := UNZ_OK;
      if restReadUncompressed == 0 && !raw {
        if crc32 != crcWait {
          err := UNZ_CRCERROR;
        }
      }
    }
  }

  method CopyBytes(dst: array<Byte>, at: nat, src: array<Byte>, from: nat, n: nat)
    requires at + n <= dst.Length && from + n <= src.Length && dst != src
    modifies dst
    ensures dst[at..at + n] == src[from..from + n]
    ensures dst[..at] == old(dst[..at]) && dst[at + n..] == old(dst[at + n..])
  {
    var i := 0;
    while i < n
      invariant 0 <= i <= n
      invariant dst[at..at + i] == src[from..from + i]
      invariant dst[..at] == old(dst[..at]) && dst[at + i..] == old(dst[at + i..])
    {
      dst[at + i] := src[from + i];
      i := i + 1;
    }
  }

  // The read loop round by round, with what has been copied so far.
  ghost function Accumulate(d: seq<Byte>, before: nat, s: ReadState, want: nat, done: seq<Byte>): ReadResult
    decreases want
  {
    if want == 0 then ReadResult(done, s, true)
    else
      var v := Round(d, before, s, want);
      if v.out == [] then ReadResult(done, v.state, v.ok)
      else Accumulate(d, before, v.state, want - |v.out|, done + v.out)
  }

  lemma {:induction false} AccumulateIsReadLoop(d: seq<Byte>, before: nat, s: ReadState, want: nat, done: seq<Byte>)
    ensures var r := ReadLoop(d, before, s, want);
            Accumulate(d, before, s, want, done) == ReadResult(done + r.out, r.state, r.ok)
    decreases want
  {
    hide Round;
    assert done + [] == done;
    if want == 0 {
    } else {
      var v := Round(d, before, s, want);
      if v.out != [] {
        AccumulateIsReadLoop(d, before, v.state, want - |v.out|, done + v.out);
        var rest := ReadLoop(d, before, v.state, want - |v.out|);
        assert done + (v.out + rest.out) == done + v.out + rest.out;
      }
    }
  }

  // The state unzOpenCurrentFile3 starts from.
  function OpenedState(e: Entry, varSize: nat, raw: bool, crcStep: CrcStep): ReadState
  {
    ReadState(e.offsetCurfile + SIZEZIPLOCALHEADER + varSize, e.info.compressedSize, e.info.uncompressedSize, [],
              0, 0, e.info.crc, raw, crcStep)
  }
}
