// mztools.c: rebuild an archive from its local headers alone.
module Mztools {
  import opened Bytes
  import opened Options
  import opened ByteStreams
  import opened ZipFormat

  const Z_ERRNO := -1
  const Z_STREAM_ERROR := -2
  const FILENAME_BUFFER: nat := 256
  const EXTRA_BUFFER: nat := 1024
  const END_RECORD_SIZE: nat := 22
  const MERGE_BUFFER: nat := 8192

  // ---------- records ----------

  datatype LocalFields = LocalFields(
    version: nat, flag: nat, method_: nat, time: nat, date: nat, crc: nat,
    compressed: nat, uncompressed: nat, nameSize: nat, extraSize: nat)

  function FieldsAt(d: seq<Byte>, p: nat): (f: LocalFields)
    requires p + SIZEZIPLOCALHEADER <= |d|
    ensures f.nameSize < TWO16 && f.extraSize < TWO16 && f.compressed < TWO32 && f.uncompressed < TWO32
  {
    LocalFields(R16(d, p + 4), R16(d, p + 6), R16(d, p + 8), R16(d, p + 10), R16(d, p + 12), R32(d, p + 14),
                R32(d, p + 18), R32(d, p + 22), R16(d, p + 26), R16(d, p + 28))
  }

  // Bytes of data copied with a record: none when the size reads as negative.
  function DataSize(compressed: nat, uncompressed: nat): (n: nat)
    requires compressed < TWO32 && uncompressed < TWO32
    ensures n < TWO31
  {
    var size := if compressed == 0 then ToInt(uncompressed) else ToInt(compressed);
    if size > 0 then size else 0
  }

  // What the loop finds at p: a record and where the next one starts; the end of the records; a
  // record it gives up on; or one that does not fit the fixed buffers for name and extra field,
  // for which C says nothing about what follows.
  datatype Found = Record(next: nat) | NoRecord | Broken(err: int) | Overrun

  function Scan(d: seq<Byte>, p: nat): (r: Found)
    ensures r.Record? ==> p + SIZEZIPLOCALHEADER < r.next <= |d|
  {
    if p + SIZEZIPLOCALHEADER > |d| || R32(d, p) != LOCAL_MAGIC then NoRecord
    else
      var f := FieldsAt(d, p);
      var name := p + SIZEZIPLOCALHEADER;
      var extra := name + f.nameSize;
      var data := extra + f.extraSize;
      var n := DataSize(f.compressed, f.uncompressed);
      if f.nameSize == 0 then Broken(Z_STREAM_ERROR)
      else if Min(f.nameSize, |d| - name) > FILENAME_BUFFER then Overrun
      else if extra > |d| then Broken(Z_ERRNO)
      else if Min(f.extraSize, |d| - extra) > EXTRA_BUFFER then Overrun
      else if data > |d| || data + n > |d| then Broken(Z_ERRNO)
      else Record(data + n)
  }

  ghost predicate AllRecords(d: seq<Byte>, starts: seq<nat>)
  {
    forall i :: 0 <= i < |starts| ==> Scan(d, starts[i]).Record?
  }

  // The records from p on: where they start, where they end, and what stopped the loop.
  datatype Survey = Survey(starts: seq<nat>, end: nat, stop: Found)

  function SurveyFrom(d: seq<Byte>, p: nat): (s: Survey)
    ensures !s.stop.Record? && p <= s.end && (p <= |d| ==> s.end <= |d|)
    ensures AllRecords(d, s.starts)
    ensures forall i :: 0 <= i < |s.starts| ==> p <= s.starts[i] && Scan(d, s.starts[i]).next <= s.end
    decreases |d| - p
  {
    match Scan(d, p)
    case Record(next) =>
      var s := SurveyFrom(d, next);
      s.(starts := [p] + s.starts)
    case stop => Survey([], p, stop)
  }

  // ---------- what is written ----------

  function HeaderFront(f: LocalFields): (h: seq<Byte>)
    ensures |h| == 24
  {
    W32(CENTRAL_MAGIC) + W16(f.version) + W16(f.version) + W16(f.flag) + W16(f.method_) + W16(f.time) + W16(f.date)
    + W32(f.crc) + W32(f.compressed)
  }

  function HeaderBack(f: LocalFields, offset: nat): (h: seq<Byte>)
    ensures |h| == 22
  {
    W32(f.uncompressed) + W16(f.nameSize) + W16(f.extraSize) + W16(0) + W16(0) + W16(0) + W32(0) + W32(offset)
  }

  function CentralHeader(f: LocalFields, offset: nat): (h: seq<Byte>)
    ensures |h| == SIZECENTRALDIRITEM
  {
    HeaderFront(f) + HeaderBack(f, offset)
  }

  // Name and extra field of the record at p
  function NameAndExtra(d: seq<Byte>, p: nat): seq<Byte>
    requires Scan(d, p).Record?
  {
    var f := FieldsAt(d, p);
    d[p + SIZEZIPLOCALHEADER..p + SIZEZIPLOCALHEADER + f.nameSize + f.extraSize]
  }

  // The directory entry for the local record at p, which is also its offset in the output
  function CentralEntry(d: seq<Byte>, p: nat): (e: seq<Byte>)
    requires Scan(d, p).Record?
  {
    CentralHeader(FieldsAt(d, p), p) + NameAndExtra(d, p)
  }

  function CentralDirectory(d: seq<Byte>, starts: seq<nat>): seq<Byte>
    requires AllRecords(d, starts)
  {
    if starts == [] then [] else CentralEntry(d, starts[0]) + CentralDirectory(d, starts[1..])
  }

  function EndRecord(entries: nat, size: nat, offset: nat): (e: seq<Byte>)
    ensures |e| == END_RECORD_SIZE
  {
    var n := Min(entries, 0xffff);
    W32(END_MAGIC) + W16(0) + W16(0) + W16(n) + W16(n) + W32(size) + W32(offset) + W16(0)
  }

  function RecordData(d: seq<Byte>, p: nat): nat
    requires Scan(d, p).Record?
  {
    DataSize(FieldsAt(d, p).compressed, FieldsAt(d, p).uncompressed)
  }

  function DataBytes(d: seq<Byte>, starts: seq<nat>): nat
    requires AllRecords(d, starts)
  {
    if starts == [] then 0 else RecordData(d, starts[0]) + DataBytes(d, starts[1..])
  }

  datatype Outcome =
    | Repaired(output: seq<Byte>, entries: nat, bytes: nat)
    | Failed(err: int)
    | Unspecified

  function Repair(d: seq<Byte>): (o: Outcome)
  {
    var s := SurveyFrom(d, 0);
    if s.stop.Broken? then Failed(s.stop.err)
    else if s.stop.Overrun? then Unspecified
    else
      var cd := CentralDirectory(d, s.starts);
      Repaired(d[..s.end] + cd + EndRecord(|s.starts|, |cd|, s.end), |s.starts|, DataBytes(d, s.starts))
  }

  // ---------- the program ----------

  // WRITE_16 and WRITE_32 fill a header from front to back; done is what it holds so far.
  method Write16(buf: array<Byte>, at: nat, n: nat, ghost done: seq<Byte>)
    requires at + 2 <= buf.Length && |done| == at && buf[..at] == done
    modifies buf
    ensures buf[..at + 2] == done + W16(n)
  {
    buf[at] := n % 256;
    buf[at + 1] := n / 256 % 256;
    assert buf[..at + 2] == buf[..at] + [buf[at], buf[at + 1]];
  }

  method Write32(buf: array<Byte>, at: nat, n: nat, ghost done: seq<Byte>)
    requires at + 4 <= buf.Length && |done| == at && buf[..at] == done
    modifies buf
    ensures buf[..at + 4] == done + W32(n)
  {
    Write16(buf, at, n % TWO16, done);
    Write16(buf, at + 2, n / TWO16, done + W16(n % TWO16));
    assert done + W16(n % TWO16) + W16(n / TWO16) == done + W32(n);
  }

  // The first half of the fields
  method WriteHeaderFront(header: array<Byte>, f: LocalFields)
    requires header.Length == SIZECENTRALDIRITEM
    modifies header
    ensures header[..24] == HeaderFront(f)
  {
    hide W16, W32;
    Write32(header, 0, CENTRAL_MAGIC, []);
    Write16(header, 4, f.version, header[..4]);
    Write16(header, 6, f.version, header[..6]);
    Write16(header, 8, f.flag, header[..8]);
    Write16(header, 10, f.method_, header[..10]);
    Write16(header, 12, f.time, header[..12]);
    Write16(header, 14, f.date, header[..14]);
    Write32(header, 16, f.crc, header[..16]);
    Write32(header, 20, f.compressed, header[..20]);
  }

  method WriteCentralHeader(f: LocalFields, currentOffset: nat) returns (bytes: seq<Byte>)
    ensures bytes == CentralHeader(f, currentOffset)
  {
    hide W16, W32, HeaderFront, HeaderBack;
    var header := new Byte[SIZECENTRALDIRITEM];
    WriteHeaderFront(header, f);
    Write32(header, 24, f.uncompressed, header[..24]);
    Write16(header, 28, f.nameSize, header[..28]);
    Write16(header, 30, f.extraSize, header[..30]);
    Write16(header, 32, 0, header[..32]);
    Write16(header, 34, 0, header[..34]);
    Write16(header, 36, 0, header[..36]);
    Write32(header, 38, 0, header[..38]);
    Write32(header, 42, currentOffset, header[..42]);
    bytes := header[..];
    assert bytes == header[..46];
    BackBehind(HeaderFront(f), f, currentOffset);
  }

  lemma BackBehind(front: seq<Byte>, f: LocalFields, offset: nat)
    ensures front + W32(f.uncompressed) + W16(f.nameSize) + W16(f.extraSize) + W16(0) + W16(0) + W16(0) + W32(0)
            + W32(offset) == front + HeaderBack(f, offset)
  {
    hide W16, W32;
  }

  method WriteEndRecord(entries: nat, offsetCD: nat, offset: nat) returns (bytes: seq<Byte>)
    ensures bytes == EndRecord(entries, offsetCD, offset)
  {
    var entriesZip := entries;
    if entriesZip > 0xffff {
      entriesZip := 0xffff;
    }
    var header := new Byte[END_RECORD_SIZE];
    Write32(header, 0, END_MAGIC, []);
    Write16(header, 4, 0, header[..4]);
    Write16(header, 6, 0, header[..6]);
    Write16(header, 8, entriesZip, header[..8]);
    Write16(header, 10, entriesZip, header[..10]);
    Write32(header, 12, offsetCD, header[..12]);
    Write32(header, 16, offset, header[..16]);
    Write16(header, 20, 0, header[..20]);
    bytes := header[..];
    assert bytes == header[..22];
  }

  method ReadFields(header: array<Byte>, ghost d: seq<Byte>, ghost p: nat) returns (f: LocalFields)
    requires header.Length == SIZEZIPLOCALHEADER && p + SIZEZIPLOCALHEADER <= |d|
    requires header[..] == d[p..p + SIZEZIPLOCALHEADER]
    ensures f == FieldsAt(d, p)
  {
    var h := header[..];
    ReadSlice(h, 0, d, p, 30, 4);
    ReadSlice(h, 0, d, p, 30, 6);
    ReadSlice(h, 0, d, p, 30, 8);
    ReadSlice(h, 0, d, p, 30, 10);
    ReadSlice(h, 0, d, p, 30, 12);
    ReadSlice(h, 0, d, p, 30, 14);
    ReadSlice(h, 0, d, p, 30, 18);
    ReadSlice(h, 0, d, p, 30, 22);
    ReadSlice(h, 0, d, p, 30, 26);
    ReadSlice(h, 0, d, p, 30, 28);
    f := LocalFields(R16(h, 4), R16(h, 6), R16(h, 8), R16(h, 10), R16(h, 12), R32(h, 14),
                     R32(h, 18), R32(h, 22), R16(h, 26), R16(h, 28));
  }

  // fread of n bytes into a fixed buffer, and what was read; past the end of the buffer nothing
  // is promised.
  method CopyPart(input: ByteStream, buf: array<Byte>, n: nat) returns (part: seq<Byte>, failure: Option<Found>)
    requires input.pos <= |input.data|
    modifies input, buf
    ensures var d, p := input.data, old(input.pos);
            if Min(n, |d| - p) > buf.Length then failure == Some(Overrun) && part == []
            else if p + n > |d| then failure == Some(Broken(Z_ERRNO)) && part == []
            else failure == None && input.pos == p + n && part == d[p..p + n]
  {
    part, failure := [], None;
    ghost var start := input.pos;
    var left := |input.data| - input.pos;
    var got := if n < left then n else left;
    if got > buf.Length {
      failure := Some(Overrun);
      return;
    }
    got := input.ReadInto(buf, 0, got);
    if got != n {
      failure := Some(Broken(Z_ERRNO));
      return;
    }
    part := buf[..n];
    assert part == Delivered(input.data, start, n);
  }

  lemma SliceGrows(d: seq<Byte>, p: nat, n: nat, m: nat)
    requires p + n + m <= |d|
    ensures d[p..p + n] + d[p + n..p + n + m] == d[p..p + n + m]
  {
  }

  // Why the name or the extra field of a record cannot be copied
  function NamesFail(d: seq<Byte>, name: nat, f: LocalFields): (r: Option<Found>)
    requires name <= |d|
    ensures r.Some? ==> !r.value.Record?
  {
    var extra := name + f.nameSize;
    if Min(f.nameSize, |d| - name) > FILENAME_BUFFER then Some(Overrun)
    else if extra > |d| then Some(Broken(Z_ERRNO))
    else if Min(f.extraSize, |d| - extra) > EXTRA_BUFFER then Some(Overrun)
    else if extra + f.extraSize > |d| then Some(Broken(Z_ERRNO))
    else None
  }

  lemma ScanByParts(d: seq<Byte>, p: nat)
    requires p + SIZEZIPLOCALHEADER <= |d| && R32(d, p) == LOCAL_MAGIC
    ensures var f, name := FieldsAt(d, p), p + SIZEZIPLOCALHEADER;
            var data, n := name + f.nameSize + f.extraSize, DataSize(f.compressed, f.uncompressed);
            Scan(d, p) ==
            if f.nameSize == 0 then Broken(Z_STREAM_ERROR)
            else if NamesFail(d, name, f).Some? then NamesFail(d, name, f).value
            else if data + n > |d| then Broken(Z_ERRNO)
            else Record(data + n)
  {
    hide FieldsAt, DataSize;
  }

  // The file name and the extra field, as far as they can be copied
  method CopyNames(input: ByteStream, filename: array<Byte>, extra: array<Byte>, f: LocalFields)
    returns (names: seq<Byte>, failure: Option<Found>)
    requires filename.Length == FILENAME_BUFFER && extra.Length == EXTRA_BUFFER && filename != extra
    requires input.pos <= |input.data|
    modifies input, filename, extra
    ensures failure == NamesFail(input.data, old(input.pos), f)
    ensures old(input.pos) + |names| <= |input.data|
    ensures names == input.data[old(input.pos)..old(input.pos) + |names|]
    ensures failure == None ==> |names| == f.nameSize + f.extraSize && input.pos == old(input.pos) + |names|
  {
    ghost var start := input.pos;
    names, failure := CopyPart(input, filename, f.nameSize);
    if failure.Some? {
      return;
    }
    var part;
    part, failure := CopyPart(input, extra, f.extraSize);
    if failure.None? {
      SliceGrows(input.data, start, f.nameSize, f.extraSize);
      names := names + part;
    }
  }

  // The body of the loop: copy one record whose header has been read. More is appended to the
  // output than to the directory when the record turns out broken.
  method CopyRecord(input: ByteStream, header: array<Byte>, filename: array<Byte>, extra: array<Byte>, ghost p: nat)
    returns (found: Found, f: LocalFields, copied: seq<Byte>, nameAndExtra: seq<Byte>, size: nat)
    requires header.Length == SIZEZIPLOCALHEADER && filename.Length == FILENAME_BUFFER && extra.Length == EXTRA_BUFFER
    requires filename != header && extra != header && filename != extra
    requires p + SIZEZIPLOCALHEADER == input.pos <= |input.data| && header[..] == input.data[p..input.pos]
    requires R32(input.data, p) == LOCAL_MAGIC
    modifies input, filename, extra
    ensures found == Scan(input.data, p)
    ensures p + |copied| <= |input.data| && copied == input.data[p..p + |copied|]
    ensures found.Record? ==>
              && input.pos == found.next == p + |copied| && f == FieldsAt(input.data, p)
              && nameAndExtra == NameAndExtra(input.data, p) && size == RecordData(input.data, p)
  {
    hide R16, R32, FieldsAt, DataSize, NamesFail, Scan;
    ghost var d, name := input.data, input.pos;
    f := ReadFields(header, d, p);
    ScanByParts(d, p);
    copied, nameAndExtra, size := header[..], [], 0;
    if f.nameSize == 0 {
      found := Broken(Z_STREAM_ERROR);
      return;
    }
    var failure;
    nameAndExtra, failure := CopyNames(input, filename, extra, f);
    SliceGrows(d, p, SIZEZIPLOCALHEADER, |nameAndExtra|);
    copied := copied + nameAndExtra;
    if failure.Some? {
      found := failure.value;
      return;
    }
    size := DataSize(f.compressed, f.uncompressed);
    var data := new Byte[size];
    var part;
    part, failure := CopyPart(input, data, size);
    if failure.Some? {
      found := failure.value;
      return;
    }
    SliceGrows(d, p, SIZEZIPLOCALHEADER + |nameAndExtra|, size);
    copied := copied + part;
    found := Record(input.pos);
  }

  lemma PrefixGrows(front: seq<Byte>, d: seq<Byte>, p: nat, n: nat)
    requires p + n <= |d|
    ensures front + d[..p] + d[p..p + n] == front + d[..p + n]
  {
    assert d[..p] + d[p..p + n] == d[..p + n];
  }

  // The final merge, 8192 bytes at a time.
  method Merge(temp: ByteStream, output: seq<Byte>) returns (merged: seq<Byte>)
    requires temp.pos == 0
    modifies temp
    ensures merged == output + temp.data
  {
    merged := output;
    var buffer := new Byte[MERGE_BUFFER];
    ghost var d := temp.data;
    var read := 1;
    while read > 0
      invariant temp.pos <= |d| && merged == output + d[..temp.pos]
      invariant read == 0 ==> temp.pos == |d|
      decreases |d| - temp.pos + read
    {
      ghost var p := temp.pos;
      read := temp.ReadInto(buffer, 0, MERGE_BUFFER);
      PrefixGrows(output, d, p, read);
      merged := merged + buffer[..read];
    }
    assert d[..|d|] == d;
  }

  // What one turn of the loop at p finds, copies and remembers
  ghost predicate Turned(d: seq<Byte>, p: nat, found: Found, f: LocalFields, copied: seq<Byte>, nameAndExtra: seq<Byte>,
          size: nat)
  {
    && found == Scan(d, p)
    && p + |copied| <= |d| && copied == d[p..p + |copied|]
    && (found.NoRecord? ==> copied == [])
    && (found.Record? ==>
          && found.next == p + |copied| && f == FieldsAt(d, p)
          && nameAndExtra == NameAndExtra(d, p) && size == RecordData(d, p))
  }

  // One turn of the loop: read a header and, if it is a local one, copy its record.
  method NextRecord(input: ByteStream, header: array<Byte>, filename: array<Byte>, extra: array<Byte>)
    returns (found: Found, f: LocalFields, copied: seq<Byte>, nameAndExtra: seq<Byte>, size: nat)
    requires header.Length == SIZEZIPLOCALHEADER && filename.Length == FILENAME_BUFFER && extra.Length == EXTRA_BUFFER
    requires filename != header && extra != header && filename != extra
    requires input.pos <= |input.data|
    modifies input, header, filename, extra
    ensures Turned(input.data, old(input.pos), found, f, copied, nameAndExtra, size)
    ensures found.Record? ==> input.pos == found.next
  {
    ghost var d, p := input.data, input.pos;
    f, copied, nameAndExtra, size := LocalFields(0, 0, 0, 0, 0, 0, 0, 0, 0, 0), [], [], 0;
    var got := input.ReadInto(header, 0, SIZEZIPLOCALHEADER);
    if got != SIZEZIPLOCALHEADER {
      found := NoRecord;
      return;
    }
    assert header[..] == d[p..p + SIZEZIPLOCALHEADER];
    ReadSlice(header[..], 0, d, p, 30, 0);
    if R32(header[..], 0) != LOCAL_MAGIC {
      found := NoRecord;
      return;
    }
    found, f, copied, nameAndExtra, size := CopyRecord(input, header, filename, extra, p);
  }

  // The loop: fpOut and fpOutCD grow record by record, and offset, entries and totalBytes say
  // what they hold.
  method CopyRecords(input: ByteStream)
    returns (found: Found, output: seq<Byte>, outputCD: seq<Byte>, entries: nat, totalBytes: nat, offset: nat)
    requires input.pos == 0
    modifies input
    ensures var s := SurveyFrom(input.data, 0);
            && found == s.stop && offset == s.end
            && outputCD == CentralDirectory(input.data, s.starts)
            && entries == |s.starts| && totalBytes == DataBytes(input.data, s.starts)
            && output <= input.data
            && (found.NoRecord? ==> output == input.data[..offset])
  {
    ghost var d := input.data;
    output, outputCD, entries, totalBytes, offset := [], [], 0, 0, 0;
    var header := new Byte[SIZEZIPLOCALHEADER];
    var filename := new Byte[FILENAME_BUFFER];
    var extra := new Byte[EXTRA_BUFFER];
    ghost var starts: seq<nat> := [];
    NothingCopied(d);
    while true
      invariant input.pos == offset <= |d|
      invariant Progress(d, starts, offset, output, outputCD, entries, totalBytes)
      decreases |d| - offset
    {
      var f, copied, nameAndExtra, size;
      found, f, copied, nameAndExtra, size := NextRecord(input, header, filename, extra);
      if !found.Record? {
        LastTurn(d, starts, offset, output, outputCD, entries, totalBytes, found, f, copied, nameAndExtra, size);
        output := output + copied;
        return;
      }
      TurnProgresses(d, starts, offset, output, outputCD, entries, totalBytes, found, f, copied, nameAndExtra, size);
      output := output + copied;
      var central := WriteCentralHeader(f, offset);
      outputCD := outputCD + (central + nameAndExtra);
      totalBytes := totalBytes + size;
      entries := entries + 1;
      starts := starts + [offset];
      offset := input.pos;
    }
  }

  // The state of the loop when the records at starts have been copied.
  ghost predicate Progress(d: seq<Byte>, starts: seq<nat>, offset: nat, output: seq<Byte>, outputCD: seq<Byte>,
          entries: nat, totalBytes: nat)
  {
    && Built(d, starts, outputCD, entries, totalBytes)
    && offset <= |d| && output == d[..offset]
    && Extended(starts, SurveyFrom(d, offset)) == SurveyFrom(d, 0)
  }

  lemma NothingCopied(d: seq<Byte>)
    ensures Progress(d, [], 0, [], [], 0, 0)
  {
    assert Extended([], SurveyFrom(d, 0)) == SurveyFrom(d, 0);
  }

  lemma TurnProgresses(d: seq<Byte>, starts: seq<nat>, offset: nat, output: seq<Byte>, outputCD: seq<Byte>,
          entries: nat, totalBytes: nat, found: Found, f: LocalFields, copied: seq<Byte>, nameAndExtra: seq<Byte>,
          size: nat)
    requires Progress(d, starts, offset, output, outputCD, entries, totalBytes)
    requires Turned(d, offset, found, f, copied, nameAndExtra, size) && found.Record?
    ensures Progress(d, starts + [offset], found.next, output + copied,
                     outputCD + (CentralHeader(f, offset) + nameAndExtra),
                     entries + 1, totalBytes + size)
  {
    hide CentralHeader, SurveyFrom, Scan, FieldsAt, RecordData;
    PrefixGrows([], d, offset, |copied|);
    BuiltExtends(d, starts, offset, outputCD, entries, totalBytes);
    SurveyContinues(d, starts, offset);
  }

  lemma LastTurn(d: seq<Byte>, starts: seq<nat>, offset: nat, output: seq<Byte>, outputCD: seq<Byte>, entries: nat,
          totalBytes: nat, found: Found, f: LocalFields, copied: seq<Byte>, nameAndExtra: seq<Byte>, size: nat)
    requires Progress(d, starts, offset, output, outputCD, entries, totalBytes)
    requires Turned(d, offset, found, f, copied, nameAndExtra, size) && !found.Record?
    ensures SurveyFrom(d, 0) == Survey(starts, offset, found)
    ensures output + copied <= d && (found.NoRecord? ==> output + copied == d[..offset])
  {
    hide Scan, FieldsAt, CentralHeader;
    PrefixGrows([], d, offset, |copied|);
    assert starts + [] == starts;
  }

  // unzRepair. Whatever stops it, the output holds nothing but a prefix of the input until the
  // directory is appended. The counters are unbounded: in C they overflow beyond 2 GB.
  method UnzRepair(input: ByteStream) returns (o: Outcome, output: seq<Byte>)
    requires input.pos == 0
    modifies input
    ensures o == Repair(input.data)
    ensures if o.Repaired? then output == o.output else output <= input.data
  {
    hide EndRecord, CentralDirectory, SurveyFrom;
    var found, outputCD, entries, totalBytes, offset;
    found, output, outputCD, entries, totalBytes, offset := CopyRecords(input);
    var end := WriteEndRecord(entries, |outputCD|, offset);
    if found.Broken? {
      return Failed(found.err), output;
    }
    if found.Overrun? {
      return Unspecified, output;
    }
    var temp := new ByteStream(outputCD + end);
    ghost var copied := output;
    output := Merge(temp, output);
    assert output == copied + outputCD + end;
    o := Repaired(output, entries, totalBytes);
  }

  ghost function Extended(starts: seq<nat>, s: Survey): Survey
  {
    s.(starts := starts + s.starts)
  }

  // The directory and the totals that belong to these records
  ghost predicate Built(d: seq<Byte>, starts: seq<nat>, outputCD: seq<Byte>, entries: nat, totalBytes: nat)
  {
    && AllRecords(d, starts)
    && outputCD == CentralDirectory(d, starts) && entries == |starts| && totalBytes == DataBytes(d, starts)
  }

  lemma BuiltExtends(d: seq<Byte>, starts: seq<nat>, p: nat, outputCD: seq<Byte>, entries: nat, totalBytes: nat)
    requires Scan(d, p).Record? && Built(d, starts, outputCD, entries, totalBytes)
    ensures Built(d, starts + [p], outputCD + CentralEntry(d, p), entries + 1, totalBytes + RecordData(d, p))
  {
    DirectoryAppended(d, starts, p);
  }

  lemma SurveyContinues(d: seq<Byte>, starts: seq<nat>, p: nat)
    requires Scan(d, p).Record?
    ensures Extended(starts, SurveyFrom(d, p)) == Extended(starts + [p], SurveyFrom(d, Scan(d, p).next))
  {
    var rest := SurveyFrom(d, Scan(d, p).next);
    assert SurveyFrom(d, p) == rest.(starts := [p] + rest.starts);
    assert starts + ([p] + rest.starts) == starts + [p] + rest.starts;
  }

  lemma {:induction false} DirectoryAppended(d: seq<Byte>, starts: seq<nat>, p: nat)
    requires AllRecords(d, starts) && Scan(d, p).Record?
    ensures AllRecords(d, starts + [p])
    ensures CentralDirectory(d, starts + [p]) == CentralDirectory(d, starts) + CentralEntry(d, p)
    ensures DataBytes(d, starts + [p]) == DataBytes(d, starts) + RecordData(d, p)
  {
    hide CentralEntry, RecordData, Scan;
    if starts == [] {
      assert ([] + [p])[1..] == [];
    } else {
      assert (starts + [p])[1..] == starts[1..] + [p];
      DirectoryAppended(d, starts[1..], p);
      assert CentralDirectory(d, starts + [p]) == CentralEntry(d, starts[0]) + CentralDirectory(d, starts[1..] + [p]);
    }
  }
}
