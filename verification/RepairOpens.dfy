// What unzRepair writes, unzip.c opens and enumerates.
module RepairOpens {
  import opened Bytes
  import opened Options
  import opened ByteStreams
  import opened SignatureSearch
  import opened Crc
  import opened ZipFormat
  import opened Directories
  import opened StoredRead
  import opened EntryReaders
  import opened Mztools
  import opened RepairTwice

  // ---------- the written headers read back ----------

  lemma EndRecordReads(entries: nat, size: nat, offset: nat)
    requires size < TWO32 && offset < TWO32
    ensures var e := EndRecord(entries, size, offset);
            && R32(e, 0) == END_MAGIC && R16(e, 4) == 0 && R16(e, 6) == 0
            && R16(e, 8) == R16(e, 10) == Min(entries, 0xffff)
            && R32(e, 12) == size && R32(e, 16) == offset && R16(e, 20) == 0
  {
    hide W16, W32, R16, R32;
    var e, n := EndRecord(entries, size, offset), Min(entries, 0xffff);
    assert e[0..4] == W32(END_MAGIC) && e[4..6] == W16(0) && e[6..8] == W16(0) && e[8..10] == W16(n);
    assert e[10..12] == W16(n) && e[12..16] == W32(size) && e[16..20] == W32(offset) && e[20..22] == W16(0);
    WrittenFieldReads32(e, 0, END_MAGIC);
    WrittenFieldReads16(e, 4, 0);
    WrittenFieldReads16(e, 6, 0);
    WrittenFieldReads16(e, 8, n);
    WrittenFieldReads16(e, 10, n);
    WrittenFieldReads32(e, 12, size);
    WrittenFieldReads32(e, 16, offset);
    WrittenFieldReads16(e, 20, 0);
  }

  ghost predicate InRange(f: LocalFields)
  {
    && f.version < TWO16 && f.flag < TWO16 && f.method_ < TWO16 && f.time < TWO16 && f.date < TWO16
    && f.crc < TWO32 && f.compressed < TWO32 && f.uncompressed < TWO32 && f.nameSize < TWO16 && f.extraSize < TWO16
  }

  // The directory entry that describes a local record at offset
  function EntryFor(f: LocalFields, offset: nat): Entry
  {
    var dosDate := f.time + TWO16 * f.date;
    Entry(FileInfo(f.version, f.version, f.flag, f.method_, dosDate, f.crc, f.compressed, f.uncompressed,
                   f.nameSize, f.extraSize, 0, 0, 0, 0, DosDateToTmuDate(dosDate)), offset)
  }

  lemma FrontSlices(f: LocalFields)
    ensures var h := HeaderFront(f);
            && h[0..4] == W32(CENTRAL_MAGIC) && h[4..6] == W16(f.version) && h[6..8] == W16(f.version)
            && h[8..10] == W16(f.flag) && h[10..12] == W16(f.method_)
  {
    hide W16, W32;
  }

  lemma FrontSlices2(f: LocalFields)
    ensures var h := HeaderFront(f);
            && h[12..14] == W16(f.time) && h[14..16] == W16(f.date) && h[16..20] == W32(f.crc)
            && h[20..24] == W32(f.compressed)
  {
    hide W16, W32;
  }

  lemma BackSlices(f: LocalFields, offset: nat)
    ensures var h := HeaderBack(f, offset);
            && h[0..4] == W32(f.uncompressed) && h[4..6] == W16(f.nameSize) && h[6..8] == W16(f.extraSize)
            && h[8..10] == W16(0) && h[10..12] == W16(0)
  {
    hide W16, W32;
  }

  lemma BackSlices2(f: LocalFields, offset: nat)
    ensures var h := HeaderBack(f, offset);
            h[12..14] == W16(0) && h[14..18] == W32(0) && h[18..22] == W32(offset)
  {
    hide W16, W32;
  }

  lemma FrontReads(f: LocalFields)
    requires InRange(f)
    ensures var h := HeaderFront(f);
            && R32(h, 0) == CENTRAL_MAGIC && R16(h, 4) == f.version && R16(h, 6) == f.version && R16(h, 8) == f.flag
            && R16(h, 10) == f.method_ && R32(h, 12) == f.time + TWO16 * f.date && R32(h, 16) == f.crc
            && R32(h, 20) == f.compressed
  {
    hide W16, W32, R16, HeaderFront;
    var h := HeaderFront(f);
    FrontSlices(f);
    FrontSlices2(f);
    WrittenFieldReads32(h, 0, CENTRAL_MAGIC);
    WrittenFieldReads16(h, 4, f.version);
    WrittenFieldReads16(h, 6, f.version);
    WrittenFieldReads16(h, 8, f.flag);
    WrittenFieldReads16(h, 10, f.method_);
    WrittenFieldReads16(h, 12, f.time);
    WrittenFieldReads16(h, 14, f.date);
    WrittenFieldReads32(h, 16, f.crc);
    WrittenFieldReads32(h, 20, f.compressed);
  }

  lemma BackReads(f: LocalFields, offset: nat)
    requires InRange(f) && offset < TWO32
    ensures var h := HeaderBack(f, offset);
            && R32(h, 0) == f.uncompressed && R16(h, 4) == f.nameSize && R16(h, 6) == f.extraSize
            && R16(h, 8) == 0 && R16(h, 10) == 0 && R16(h, 12) == 0 && R32(h, 14) == 0 && R32(h, 18) == offset
  {
    hide W16, W32, R16, R32, HeaderBack;
    var h := HeaderBack(f, offset);
    BackSlices(f, offset);
    BackSlices2(f, offset);
    WrittenFieldReads32(h, 0, f.uncompressed);
    WrittenFieldReads16(h, 4, f.nameSize);
    WrittenFieldReads16(h, 6, f.extraSize);
    WrittenFieldReads16(h, 8, 0);
    WrittenFieldReads16(h, 10, 0);
    WrittenFieldReads16(h, 12, 0);
    WrittenFieldReads32(h, 14, 0);
    WrittenFieldReads32(h, 18, offset);
  }

  // A field of either half is a field of the header.
  lemma HalvesRead(f: LocalFields, offset: nat, k: nat)
    ensures var h := CentralHeader(f, offset);
            && (k + 2 <= 24 ==> R16(h, k) == R16(HeaderFront(f), k))
            && (k + 4 <= 24 ==> R32(h, k) == R32(HeaderFront(f), k))
            && (k + 2 <= 22 ==> R16(h, 24 + k) == R16(HeaderBack(f, offset), k))
            && (k + 4 <= 22 ==> R32(h, 24 + k) == R32(HeaderBack(f, offset), k))
  {
    hide HeaderFront, HeaderBack, R16, R32;
    var h, front, back := CentralHeader(f, offset), HeaderFront(f), HeaderBack(f, offset);
    assert h[0..24] == front == front[0..24] && h[24..46] == back == back[0..22];
    ReadSlice(h, 0, front, 0, 24, k);
    ReadSlice(h, 24, back, 0, 22, k);
  }

  lemma CentralHeaderReads1(f: LocalFields, offset: nat)
    requires InRange(f)
    ensures var h := CentralHeader(f, offset);
            && R32(h, 0) == CENTRAL_MAGIC && R16(h, 4) == f.version && R16(h, 6) == f.version && R16(h, 8) == f.flag
            && R16(h, 10) == f.method_ && R32(h, 12) == f.time + TWO16 * f.date && R32(h, 16) == f.crc
  {
    hide HeaderFront, HeaderBack, CentralHeader, R16, R32;
    FrontReads(f);
    HalvesRead(f, offset, 0);
    HalvesRead(f, offset, 4);
    HalvesRead(f, offset, 6);
    HalvesRead(f, offset, 8);
    HalvesRead(f, offset, 10);
    HalvesRead(f, offset, 12);
    HalvesRead(f, offset, 16);
  }

  lemma CentralHeaderReads2(f: LocalFields, offset: nat)
    requires InRange(f) && offset < TWO32
    ensures var h := CentralHeader(f, offset);
            && R32(h, 20) == f.compressed && R32(h, 24) == f.uncompressed && R16(h, 28) == f.nameSize
            && R16(h, 30) == f.extraSize && R16(h, 32) == 0 && R16(h, 34) == 0 && R16(h, 36) == 0 && R32(h, 38) == 0
            && R32(h, 42) == offset
  {
    hide HeaderFront, HeaderBack, CentralHeader, R16, R32;
    FrontReads(f);
    BackReads(f, offset);
    HalvesRead(f, offset, 20);
    HalvesRead(f, offset, 0);
    HalvesRead(f, offset, 4);
    HalvesRead(f, offset, 6);
    HalvesRead(f, offset, 8);
    HalvesRead(f, offset, 10);
    HalvesRead(f, offset, 12);
    HalvesRead(f, offset, 14);
    HalvesRead(f, offset, 18);
  }

  // A slice of a file reads like the slice alone.
  lemma FieldInSlice(d: seq<Byte>, p: nat, h: seq<Byte>, k: nat)
    requires p + |h| <= |d| && d[p..p + |h|] == h
    ensures k + 2 <= |h| ==> Short(d, p + k) == R16(h, k)
    ensures k + 4 <= |h| ==> Long(d, p + k) == R32(h, k)
  {
    assert h[0..|h|] == h;
    ReadSlice(d, p, h, 0, |h|, k);
    FieldInside(d, p + k);
  }

  // The fields of a header that stands in a file, as the reader sees them
  lemma WrittenFields1(d: seq<Byte>, p: nat, f: LocalFields, offset: nat)
    requires InRange(f) && offset < TWO32
    requires p + SIZECENTRALDIRITEM <= |d| && d[p..p + SIZECENTRALDIRITEM] == CentralHeader(f, offset)
    ensures Long(d, p) == CENTRAL_MAGIC && Short(d, p + 4) == Short(d, p + 6) == f.version && Short(d, p + 8) == f.flag
    ensures Short(d, p + 10) == f.method_ && Long(d, p + 12) == f.time + TWO16 * f.date && Long(d, p + 16) == f.crc
  {
    hide CentralHeader, R16, R32, Short, Long, InRange;
    var h := CentralHeader(f, offset);
    CentralHeaderReads1(f, offset);
    FieldInSlice(d, p, h, 0);
    FieldInSlice(d, p, h, 4);
    FieldInSlice(d, p, h, 6);
    FieldInSlice(d, p, h, 8);
    FieldInSlice(d, p, h, 10);
    FieldInSlice(d, p, h, 12);
    FieldInSlice(d, p, h, 16);
  }

  lemma WrittenFields2(d: seq<Byte>, p: nat, f: LocalFields, offset: nat)
    requires InRange(f) && offset < TWO32
    requires p + SIZECENTRALDIRITEM <= |d| && d[p..p + SIZECENTRALDIRITEM] == CentralHeader(f, offset)
    ensures Long(d, p + 20) == f.compressed && Long(d, p + 24) == f.uncompressed
    ensures Short(d, p + 28) == f.nameSize && Short(d, p + 30) == f.extraSize && Short(d, p + 32) == 0
    ensures Short(d, p + 34) == 0 && Short(d, p + 36) == 0 && Long(d, p + 38) == 0 && Long(d, p + 42) == offset
  {
    hide CentralHeader, R16, R32, Short, Long, InRange;
    var h := CentralHeader(f, offset);
    CentralHeaderReads2(f, offset);
    FieldInSlice(d, p, h, 20);
    FieldInSlice(d, p, h, 24);
    FieldInSlice(d, p, h, 28);
    FieldInSlice(d, p, h, 30);
    FieldInSlice(d, p, h, 32);
    FieldInSlice(d, p, h, 34);
    FieldInSlice(d, p, h, 36);
    FieldInSlice(d, p, h, 38);
    FieldInSlice(d, p, h, 42);
  }

  lemma WrittenHeaderDecodes(d: seq<Byte>, p: nat, f: LocalFields, offset: nat)
    requires InRange(f) && offset < TWO32
    requires p + SIZECENTRALDIRITEM <= |d| && d[p..p + SIZECENTRALDIRITEM] == CentralHeader(f, offset)
    ensures Long(d, p) == CENTRAL_MAGIC && HeaderAt(d, p) == EntryFor(f, offset)
  {
    hide CentralHeader, Short, Long, InRange, DosDateToTmuDate;
    WrittenFields1(d, p, f, offset);
    WrittenFields2(d, p, f, offset);
  }

  // ---------- the layout of the output ----------

  lemma DirectoryCons(d: seq<Byte>, p: nat, rest: seq<nat>)
    requires AllRecords(d, [p] + rest)
    ensures AllRecords(d, rest) && Scan(d, p).Record?
    ensures CentralDirectory(d, [p] + rest) == CentralEntry(d, p) + CentralDirectory(d, rest)
  {
    hide CentralEntry, Scan;
    assert ([p] + rest)[0] == p && ([p] + rest)[1..] == rest;
    assert forall i :: 0 <= i < |rest| ==> rest[i] == ([p] + rest)[i + 1];
  }

  lemma NoDirectory(d: seq<Byte>)
    ensures CentralDirectory(d, []) == []
  {
  }

  lemma {:induction false} DirectorySplits(d: seq<Byte>, starts: seq<nat>, k: nat)
    requires AllRecords(d, starts) && k < |starts|
    ensures CentralDirectory(d, starts) ==
            CentralDirectory(d, starts[..k]) + CentralEntry(d, starts[k]) + CentralDirectory(d, starts[k + 1..])
    ensures CentralDirectory(d, starts[..k + 1]) == CentralDirectory(d, starts[..k]) + CentralEntry(d, starts[k])
  {
    hide CentralEntry, CentralDirectory, Scan;
    var p, rest := starts[0], starts[1..];
    var first := CentralEntry(d, p);
    assert starts == [p] + rest;
    DirectoryCons(d, p, rest);
    if k == 0 {
      assert starts[..0] == [] && starts[..1] == [p] + [];
      DirectoryCons(d, p, []);
      NoDirectory(d);
      assert [] + first == first == first + [];
    } else {
      DirectorySplits(d, rest, k - 1);
      assert starts[..k] == [p] + rest[..k - 1] && starts[..k + 1] == [p] + rest[..k];
      assert starts[k + 1..] == rest[k..] && starts[k] == rest[k - 1];
      DirectoryCons(d, p, rest[..k - 1]);
      DirectoryCons(d, p, rest[..k]);
      Associate(first, CentralDirectory(d, rest[..k - 1]), CentralEntry(d, starts[k]), CentralDirectory(d, rest[k..]));
    }
  }

  lemma Associate(a: seq<Byte>, b: seq<Byte>, c: seq<Byte>, e: seq<Byte>)
    ensures a + (b + c + e) == (a + b) + c + e && a + (b + c) == (a + b) + c
  {
  }

  // Where the directory entry of the k-th record starts in the output
  function EntryStart(d: seq<Byte>, k: nat): nat
    requires k <= |SurveyFrom(d, 0).starts|
  {
    var s := SurveyFrom(d, 0);
    s.end + |CentralDirectory(d, s.starts[..k])|
  }

  // e is at p, with at least n bytes behind it
  ghost predicate Stands(out: seq<Byte>, p: nat, e: seq<Byte>, n: nat)
  {
    p + |e| + n <= |out| && out[p..p + |e|] == e
  }

  lemma Layout(out: seq<Byte>, front: seq<Byte>, pre: seq<Byte>, e: seq<Byte>, post: seq<Byte>, end: seq<Byte>)
    requires out == front + (pre + e + post) + end
    ensures Stands(out, |front| + |pre|, e, |end|)
  {
    assert out == (front + pre) + e + (post + end);
  }

  lemma NextEntryStart(d: seq<Byte>, k: nat)
    requires k < |SurveyFrom(d, 0).starts|
    ensures EntryStart(d, k + 1) == EntryStart(d, k) + |CentralEntry(d, SurveyFrom(d, 0).starts[k])|
  {
    DirectorySplits(d, SurveyFrom(d, 0).starts, k);
  }

  lemma OutputIs(d: seq<Byte>)
    requires Repair(d).Repaired?
    ensures var starts, end := SurveyFrom(d, 0).starts, SurveyFrom(d, 0).end;
            var cd := CentralDirectory(d, starts);
            Repair(d).output == d[..end] + cd + EndRecord(|starts|, |cd|, end)
  {
  }

  lemma OutputLayout(d: seq<Byte>, k: nat)
    requires Repair(d).Repaired? && k < |SurveyFrom(d, 0).starts|
    ensures Stands(Repair(d).output, EntryStart(d, k), CentralEntry(d, SurveyFrom(d, 0).starts[k]), END_RECORD_SIZE)
  {
    hide CentralHeader, CentralEntry, EndRecord, Scan, FieldsAt, Stands;
    var starts, end := SurveyFrom(d, 0).starts, SurveyFrom(d, 0).end;
    OutputIs(d);
    DirectorySplits(d, starts, k);
    var cd, e := CentralDirectory(d, starts), CentralEntry(d, starts[k]);
    var pre, post := CentralDirectory(d, starts[..k]), CentralDirectory(d, starts[k + 1..]);
    var out, last := Repair(d).output, EndRecord(|starts|, |cd|, end);
    assert cd == pre + e + post;
    Layout(out, d[..end], pre, e, post, last);
  }

  // ---------- opening it ----------

  // The bytes of the end record do not contain its own signature a second time.
  ghost predicate PlainEndRecord(e: seq<Byte>)
  {
    forall q: nat :: 1 <= q ==> !SigAt(e, q, 5, 6)
  }

  // No size field holds all ones in an unsigned long.
  ghost predicate PlainSizes(d: seq<Byte>, starts: seq<nat>, ulongMax: nat)
    requires AllRecords(d, starts)
  {
    forall k :: 0 <= k < |starts| ==> PlainFields(EntryFor(FieldsAt(d, starts[k]), starts[k]), ulongMax)
  }

  // The archive a repair of d leaves behind
  function RebuiltArchive(d: seq<Byte>, ulongMax: nat): Archive
    requires Repair(d).Repaired?
  {
    var s, out := SurveyFrom(d, 0), Repair(d).output;
    Archive(out, ulongMax, 0, Min(|s.starts|, 0xffff), 0,
            |out| - END_RECORD_SIZE, |CentralDirectory(d, s.starts)|, s.end, false)
  }

  // The end record stands behind at least one record, shows up only once, and there is no valid
  // Zip64 locator by accident.
  ghost predicate Recognised(d: seq<Byte>)
    requires Repair(d).Repaired?
  {
    var s := SurveyFrom(d, 0);
    && s.starts != [] && SearchCentralDir64(Repair(d).output) == 0
    && PlainEndRecord(EndRecord(|s.starts|, |CentralDirectory(d, s.starts)|, s.end))
  }

  // A recognised output of less than 2 GB
  ghost predicate Openable(d: seq<Byte>, ulongMax: nat)
  {
    && Repair(d).Repaired? && |Repair(d).output| < TWO31 && Recognised(d)
    && PlainSizes(d, SurveyFrom(d, 0).starts, ulongMax)
  }

  lemma RecordsTakeRoom(d: seq<Byte>)
    ensures SurveyFrom(d, 0).starts != [] ==> SurveyFrom(d, 0).end > 0
  {
    hide FieldsAt;
  }

  lemma WrittenRecordIsTheLast(d: seq<Byte>)
    requires Repair(d).Repaired? && |SurveyFrom(d, 0).starts| > 0
    requires var s := SurveyFrom(d, 0);
             PlainEndRecord(EndRecord(|s.starts|, |CentralDirectory(d, s.starts)|, s.end))
    ensures LastSig(Repair(d).output, 5, 6) == |Repair(d).output| - END_RECORD_SIZE
  {
    hide CentralDirectory, SurveyFrom, FieldsAt, EndRecord, LastSig, SigAt, PlainEndRecord, Scan;
    var s, out := SurveyFrom(d, 0), Repair(d).output;
    var e := EndRecord(|s.starts|, |CentralDirectory(d, s.starts)|, s.end);
    EndRecordSigned(|s.starts|, |CentralDirectory(d, s.starts)|, s.end);
    RecordsTakeRoom(d);
    assert out[|out| - END_RECORD_SIZE..] == e;
    PlainRecordIsTheLast(out, e);
  }

  lemma EndRecordSigned(entries: nat, size: nat, offset: nat)
    ensures SigAt(EndRecord(entries, size, offset), 0, 5, 6)
  {
  }

  // An end record at the end of a longer file that holds no second signature
  lemma PlainRecordIsTheLast(out: seq<Byte>, e: seq<Byte>)
    requires |e| == END_RECORD_SIZE < |out| && out[|out| - END_RECORD_SIZE..] == e
    requires SigAt(e, 0, 5, 6) && PlainEndRecord(e)
    ensures LastSig(out, 5, 6) == |out| - END_RECORD_SIZE
  {
    hide LastSig;
    var p := |out| - END_RECORD_SIZE;
    assert out[p..p + END_RECORD_SIZE] == e;
    forall q: nat | p <= q ensures SigAt(out, q, 5, 6) == SigAt(e, q - p, 5, 6) {
      SigInBlock(out, p, END_RECORD_SIZE, q - p, 5, 6);
    }
    LastSigIsTheLast(out, 5, 6, p);
  }

  lemma OpensAt(out: seq<Byte>, ulongMax: nat, p: nat, n: nat, size: nat, offset: nat)
    requires LastSig(out, 5, 6) == p > 0 && SearchCentralDir64(out) == 0
    requires p + END_RECORD_SIZE <= |out| && out[p..p + END_RECORD_SIZE] == EndRecord(n, size, offset)
    requires offset + size == p < TWO31
    ensures OpenArchive(out, ulongMax) == Some(Archive(out, ulongMax, 0, Min(n, 0xffff), 0, p, size, offset, false))
  {
    hide EndRecord, R16, R32, SearchCentralDir64, LastSig;
    var e := EndRecord(n, size, offset);
    EndRecordReads(n, size, offset);
    FieldInSlice(out, p, e, 4);
    FieldInSlice(out, p, e, 6);
    FieldInSlice(out, p, e, 8);
    FieldInSlice(out, p, e, 10);
    FieldInSlice(out, p, e, 12);
    FieldInSlice(out, p, e, 16);
    FieldInSlice(out, p, e, 20);
  }

  lemma RecognisedOpens(d: seq<Byte>, ulongMax: nat)
    requires Repair(d).Repaired? && |Repair(d).output| < TWO31 && Recognised(d)
    ensures OpenArchive(Repair(d).output, ulongMax) == Some(RebuiltArchive(d, ulongMax))
  {
    hide EndRecord, CentralDirectory, SearchCentralDir64, LastSig, Scan, OpenArchive, SurveyFrom, PlainEndRecord;
    var s, out := SurveyFrom(d, 0), Repair(d).output;
    WrittenRecordIsTheLast(d);
    RecordsTakeRoom(d);
    assert out[|out| - END_RECORD_SIZE..] == EndRecord(|s.starts|, |CentralDirectory(d, s.starts)|, s.end);
    OpensAt(out, ulongMax, |out| - END_RECORD_SIZE, |s.starts|, |CentralDirectory(d, s.starts)|, s.end);
  }

  // An archive that opens at p without Zip64 has its last end record at p.
  lemma OpensAtLast(d: seq<Byte>, ulongMax: nat)
    ensures match OpenArchive(d, ulongMax)
            case None => true
            case Some(a) => !a.isZip64 ==> SearchCentralDir64(d) == 0 && a.centralPos == LastSig(d, 5, 6) > 0
  {
    hide SearchCentralDir64, LastSig;
  }

  // A second signature in the end record is found first.
  lemma SecondSignatureWins(out: seq<Byte>, p: nat, e: seq<Byte>)
    requires |e| == END_RECORD_SIZE && p + |e| == |out| && out[p..] == e && p > 0 && !PlainEndRecord(e)
    ensures LastSig(out, 5, 6) != p
  {
    hide LastSig;
    var q: nat :| 1 <= q && SigAt(e, q, 5, 6);
    assert out[p..p + END_RECORD_SIZE] == e;
    SigInBlock(out, p, END_RECORD_SIZE, q, 5, 6);
    LastSigIsTheLast(out, 5, 6, p);
  }

  // The output of a repair opens as the archive that was rebuilt exactly when it is recognised: it
  // holds a record, no bytes of the end record look like a second one, and no Zip64 locator is
  // found.
  lemma RepairedOpens(d: seq<Byte>, ulongMax: nat)
    requires Repair(d).Repaired? && |Repair(d).output| < TWO31
    ensures OpenArchive(Repair(d).output, ulongMax) == Some(RebuiltArchive(d, ulongMax)) <==> Recognised(d)
  {
    hide EndRecord, CentralDirectory, SearchCentralDir64, LastSig, Scan, OpenArchive, PlainEndRecord, SurveyFrom;
    var s, out := SurveyFrom(d, 0), Repair(d).output;
    if Recognised(d) {
      RecognisedOpens(d, ulongMax);
    } else if s.starts == [] {
      EmptyRepairDoesNotOpen(d, ulongMax);
    } else {
      OpensAtLast(out, ulongMax);
      var e := EndRecord(|s.starts|, |CentralDirectory(d, s.starts)|, s.end);
      var p := |out| - END_RECORD_SIZE;
      assert out[p..] == e;
      RecordsTakeRoom(d);
      if !PlainEndRecord(e) {
        SecondSignatureWins(out, p, e);
      }
    }
  }

  // Without records there is nothing to open: the end record then starts at position 0, where
  // the backward search never looks.
  lemma EmptyRepairDoesNotOpen(d: seq<Byte>, ulongMax: nat)
    requires Repair(d).Repaired? && SurveyFrom(d, 0).starts == []
    ensures OpenArchive(Repair(d).output, ulongMax) == None
  {
    hide Scan, LastSig, EndRecord, SigAt, CheckedArchive;
    var out, e := Repair(d).output, EndRecord(0, 0, 0);
    assert out == e;
    NoSignatureBehindFirst();
    LastSigIsTheLast(out, 5, 6, 0);
    LastSigIsTheLast(out, 6, 7, 0);
  }

  // So does the repair of the empty file: it succeeds, and what it writes does not open.
  lemma EmptyFileDoesNotOpen(d: seq<Byte>, ulongMax: nat)
    requires d == []
    ensures Repair(d) == Repaired(EndRecord(0, 0, 0), 0, 0) && OpenArchive(Repair(d).output, ulongMax) == None
  {
    hide EndRecord, OpenArchive;
    assert Scan(d, 0) == NoRecord;
    EmptyRepairDoesNotOpen(d, ulongMax);
  }

  lemma NoSignatureBehindFirst()
    ensures forall q: nat :: 1 <= q ==> !SigAt(EndRecord(0, 0, 0), q, 5, 6) && !SigAt(EndRecord(0, 0, 0), q, 6, 7)
  {
  }

  // ---------- enumerating it ----------

  function LocalName(d: seq<Byte>, p: nat): seq<Byte>
    requires Scan(d, p).Record?
  {
    d[p + SIZEZIPLOCALHEADER..p + SIZEZIPLOCALHEADER + FieldsAt(d, p).nameSize]
  }

  // header and tail of a directory entry stand at p
  ghost predicate EntryStands(out: seq<Byte>, p: nat, header: seq<Byte>, tail: seq<Byte>)
  {
    p + |header| + |tail| <= |out| && out[p..p + |header|] == header && out[p + |header|..p + |header| + |tail|] == tail
  }

  lemma SliceStands(out: seq<Byte>, p: nat, header: seq<Byte>, tail: seq<Byte>)
    requires p + |header + tail| <= |out| && out[p..p + |header + tail|] == header + tail
    ensures EntryStands(out, p, header, tail)
  {
    SubSlice(out, p, p + |header + tail|, 0, |header|);
    SubSlice(out, p, p + |header + tail|, |header|, |header + tail|);
  }

  lemma WrittenEntryDecodes(out: seq<Byte>, p: nat, f: LocalFields, offset: nat, tail: seq<Byte>, ulongMax: nat)
    requires InRange(f) && offset < TWO32 && PlainFields(EntryFor(f, offset), ulongMax)
    requires EntryStands(out, p, CentralHeader(f, offset), tail)
    ensures GetEntry(out, p, ulongMax) == Some(EntryFor(f, offset)) && HeaderAt(out, p) == EntryFor(f, offset)
    ensures NameStart(out, p) == p + SIZECENTRALDIRITEM
  {
    hide CentralHeader, HeaderAt, ExtraWalk, PlainFields;
    WrittenHeaderDecodes(out, p, f, offset);
    PlainFieldsPass(out, p + SIZECENTRALDIRITEM + f.nameSize, 0, f.extraSize, EntryFor(f, offset), ulongMax);
  }

  lemma WrittenNameReads(out: seq<Byte>, p: nat, f: LocalFields, offset: nat, tail: seq<Byte>, ulongMax: nat)
    requires InRange(f) && offset < TWO32 && PlainFields(EntryFor(f, offset), ulongMax)
    requires EntryStands(out, p, CentralHeader(f, offset), tail)
    requires |tail| == f.nameSize + f.extraSize && f.nameSize <= UNZ_MAXFILENAMEINZIP
    ensures GetInfo(out, p, ulongMax, Some(UNZ_MAXFILENAMEINZIP), None, None)
         == Info(EntryFor(f, offset), tail[..f.nameSize], [], [])
  {
    hide CentralHeader, HeaderAt, InRange, DosDateToTmuDate;
    var e, q := EntryFor(f, offset), p + SIZECENTRALDIRITEM;
    WrittenHeaderDecodes(out, p, f, offset);
    WrittenEntryDecodes(out, p, f, offset, tail, ulongMax);
    PlainFieldsPass(out, q + f.nameSize, 0, f.extraSize, e, ulongMax);
    SubSlice(out, q, q + |tail|, 0, f.nameSize);
    assert Section(out, q, f.nameSize) == tail[..f.nameSize];
  }

  lemma RebuiltEntryDecodes(d: seq<Byte>, ulongMax: nat, k: nat)
    requires Openable(d, ulongMax) && k < |SurveyFrom(d, 0).starts|
    ensures var start := SurveyFrom(d, 0).starts[k];
            GetEntry(Repair(d).output, EntryStart(d, k), ulongMax) == Some(EntryFor(FieldsAt(d, start), start))
  {
    var start := SurveyFrom(d, 0).starts[k];
    RebuiltEntryStands(d, k);
    RecordsAreSmall(d, start);
    var out, f := Repair(d).output, FieldsAt(d, start);
    WrittenEntryDecodes(out, EntryStart(d, k), f, start, NameAndExtra(d, start), ulongMax);
  }

  lemma RebuiltEntryStands(d: seq<Byte>, k: nat)
    requires Repair(d).Repaired? && k < |SurveyFrom(d, 0).starts|
    ensures var start := SurveyFrom(d, 0).starts[k];
            EntryStands(Repair(d).output, EntryStart(d, k), CentralHeader(FieldsAt(d, start), start),
                        NameAndExtra(d, start))
  {
    hide CentralHeader, EndRecord, CentralDirectory, Scan, SurveyFrom, FieldsAt, EntryStands;
    var start := SurveyFrom(d, 0).starts[k];
    OutputLayout(d, k);
    SliceStands(Repair(d).output, EntryStart(d, k), CentralHeader(FieldsAt(d, start), start), NameAndExtra(d, start));
  }

  lemma RebuiltNameReads(d: seq<Byte>, ulongMax: nat, k: nat)
    requires Openable(d, ulongMax) && k < |SurveyFrom(d, 0).starts|
    ensures var start := SurveyFrom(d, 0).starts[k];
            GetInfo(Repair(d).output, EntryStart(d, k), ulongMax, Some(UNZ_MAXFILENAMEINZIP), None, None)
            == Info(EntryFor(FieldsAt(d, start), start), LocalName(d, start), [], [])
  {
    hide CentralHeader, CentralDirectory, EndRecord, SurveyFrom, EntryFor, FieldsAt, GetInfo, PlainFields;
    var start := SurveyFrom(d, 0).starts[k];
    var f := FieldsAt(d, start);
    RebuiltEntryStands(d, k);
    RecordsAreSmall(d, start);
    WrittenNameReads(Repair(d).output, EntryStart(d, k), f, start, NameAndExtra(d, start), ulongMax);
    SubSlice(d, start + SIZEZIPLOCALHEADER, start + SIZEZIPLOCALHEADER + f.nameSize + f.extraSize, 0, f.nameSize);
  }

  lemma RecordsAreSmall(d: seq<Byte>, p: nat)
    requires Scan(d, p).Record?
    ensures InRange(FieldsAt(d, p)) && 1 <= FieldsAt(d, p).nameSize <= FILENAME_BUFFER
  {
  }

  lemma CentralEntrySize(d: seq<Byte>, p: nat)
    requires Scan(d, p).Record?
    ensures |CentralEntry(d, p)| == SIZECENTRALDIRITEM + FieldsAt(d, p).nameSize + FieldsAt(d, p).extraSize
  {
    hide CentralHeader, FieldsAt;
  }

  lemma {:induction false} EntriesAreWhereTheyWereWritten(d: seq<Byte>, ulongMax: nat, k: nat)
    requires Openable(d, ulongMax) && k <= |SurveyFrom(d, 0).starts|
    ensures EntryPos(DirectoryOf(RebuiltArchive(d, ulongMax)), k) == EntryStart(d, k)
  {
    hide CentralEntry, FieldsAt, Scan;
    var dir := DirectoryOf(RebuiltArchive(d, ulongMax));
    if k == 0 {
      assert SurveyFrom(d, 0).starts[..0] == [];
    } else {
      EntriesAreWhereTheyWereWritten(d, ulongMax, k - 1);
      RebuiltEntryDecodes(d, ulongMax, k - 1);
      NextEntryStart(d, k - 1);
      CentralEntrySize(d, SurveyFrom(d, 0).starts[k - 1]);
      assert dir.entryAt(EntryStart(d, k - 1)) == GetEntry(Repair(d).output, EntryStart(d, k - 1), ulongMax);
    }
  }

  // What the k-th entry of the rebuilt directory shows: exactly the k-th local record.
  ghost predicate Shows(dir: Directory, k: nat, d: seq<Byte>, start: nat)
    requires Scan(d, start).Record?
  {
    && Decodes(dir, k)
    && CursorAt(dir, k).entry == EntryFor(FieldsAt(d, start), start)
    && dir.nameAt(EntryPos(dir, k)) == Info(EntryFor(FieldsAt(d, start), start), LocalName(d, start), [], [])
  }

  lemma RebuiltEntryShows(d: seq<Byte>, ulongMax: nat, k: nat)
    requires Openable(d, ulongMax) && k < |SurveyFrom(d, 0).starts|
    ensures Shows(DirectoryOf(RebuiltArchive(d, ulongMax)), k, d, SurveyFrom(d, 0).starts[k])
  {
    var a := RebuiltArchive(d, ulongMax);
    EntriesAreWhereTheyWereWritten(d, ulongMax, k);
    RebuiltEntryDecodes(d, ulongMax, k);
    RebuiltNameReads(d, ulongMax, k);
    assert DirectoryOf(a).entryAt(EntryStart(d, k)) == GetEntry(a.data, EntryStart(d, k), ulongMax);
  }

  lemma RebuiltIsWellFormed(d: seq<Byte>, ulongMax: nat)
    requires Openable(d, ulongMax) && |SurveyFrom(d, 0).starts| < 0xffff
    ensures WellFormed(DirectoryOf(RebuiltArchive(d, ulongMax)))
  {
    var dir := DirectoryOf(RebuiltArchive(d, ulongMax));
    forall k: nat | k < dir.numberEntry ensures Decodes(dir, k) {
      RebuiltEntryShows(d, ulongMax, k);
    }
  }

  // First stands on entry 0 from anywhere, next on each of the n entries in turn, and then it
  // fails.
  ghost predicate Enumerates(dir: Directory, n: nat)
  {
    && n > 0 && (forall k: nat :: k < n ==> Decodes(dir, k))
    && (forall c: Cursor :: GoToFirst(dir, c) == (UNZ_OK, CursorAt(dir, 0)))
    && (forall k: nat :: k + 1 < n ==> GoToNext(dir, CursorAt(dir, k)) == (UNZ_OK, CursorAt(dir, k + 1)))
    && GoToNext(dir, CursorAt(dir, n - 1)).0 != UNZ_OK
  }

  // Behind the last entry stands the end record, which is no entry.
  lemma EndRecordIsNoEntry(d: seq<Byte>, ulongMax: nat)
    requires Openable(d, ulongMax)
    ensures GetEntry(Repair(d).output, EntryStart(d, |SurveyFrom(d, 0).starts|), ulongMax) == None
  {
    hide CentralDirectory, EndRecord, Scan, SurveyFrom, EntryAt, R16, R32;
    var s, out := SurveyFrom(d, 0), Repair(d).output;
    var size := |CentralDirectory(d, s.starts)|;
    var e := EndRecord(|s.starts|, size, s.end);
    assert s.starts[..|s.starts|] == s.starts;
    var p := s.end + size;
    assert out[p..p + |e|] == e;
    EndRecordReads(|s.starts|, size, s.end);
    FieldInSlice(out, p, e, 0);
  }

  // The directory is enumerated to its end, however many records there are: from 65535 on the
  // count is capped, and next goes on until it meets the end record.
  lemma RebuiltEnumerates(d: seq<Byte>, ulongMax: nat)
    requires Openable(d, ulongMax)
    ensures Enumerates(DirectoryOf(RebuiltArchive(d, ulongMax)), |SurveyFrom(d, 0).starts|)
  {
    hide EndRecord, CentralDirectory, Scan, FieldsAt, SurveyFrom, EntryFor, Openable, LocalName;
    OpenableHasRecords(d, ulongMax);
    var a, n := RebuiltArchive(d, ulongMax), |SurveyFrom(d, 0).starts|;
    var dir := DirectoryOf(a);
    forall k: nat | k < n ensures Decodes(dir, k) {
      RebuiltEntryShows(d, ulongMax, k);
    }
    assert Decodes(dir, 0) && Decodes(dir, n - 1);
    forall k: nat | k + 1 < n ensures GoToNext(dir, CursorAt(dir, k)) == (UNZ_OK, CursorAt(dir, k + 1)) {
      assert Decodes(dir, k) && Decodes(dir, k + 1);
    }
    EntriesAreWhereTheyWereWritten(d, ulongMax, n);
    EndRecordIsNoEntry(d, ulongMax);
    assert dir.entryAt(EntryPos(dir, n)) == GetEntry(a.data, EntryPos(dir, n), ulongMax);
  }

  lemma OpenableHasRecords(d: seq<Byte>, ulongMax: nat)
    requires Openable(d, ulongMax)
    ensures Repair(d).Repaired? && |SurveyFrom(d, 0).starts| > 0
  {
  }

  // The repaired file opens, and its directory lists exactly the local records in order, with
  // their names, methods, dates, crcs, sizes and offsets.
  lemma RepairThenOpen(d: seq<Byte>, ulongMax: nat)
    requires Openable(d, ulongMax)
    ensures OpenArchive(Repair(d).output, ulongMax) == Some(RebuiltArchive(d, ulongMax))
    ensures RebuiltArchive(d, ulongMax).numberEntry == Min(|SurveyFrom(d, 0).starts|, 0xffff)
    ensures Enumerates(DirectoryOf(RebuiltArchive(d, ulongMax)), |SurveyFrom(d, 0).starts|)
    ensures |SurveyFrom(d, 0).starts| < 0xffff ==> WellFormed(DirectoryOf(RebuiltArchive(d, ulongMax)))
    ensures forall k: nat :: k < |SurveyFrom(d, 0).starts| ==>
              Shows(DirectoryOf(RebuiltArchive(d, ulongMax)), k, d, SurveyFrom(d, 0).starts[k])
  {
    hide Enumerates, WellFormed, Shows, DirectoryOf, OpenArchive;
    RepairedOpens(d, ulongMax);
    RebuiltEnumerates(d, ulongMax);
    if |SurveyFrom(d, 0).starts| < 0xffff {
      RebuiltIsWellFormed(d, ulongMax);
    }
    forall k: nat | k < |SurveyFrom(d, 0).starts|
      ensures Shows(DirectoryOf(RebuiltArchive(d, ulongMax)), k, d, SurveyFrom(d, 0).starts[k])
    {
      RebuiltEntryShows(d, ulongMax, k);
    }
  }

  // ---------- the content of its entries ----------

  function LocalBody(d: seq<Byte>, p: nat): seq<Byte>
    requires Scan(d, p).Record?
  {
    var f := FieldsAt(d, p);
    d[p + SIZEZIPLOCALHEADER + f.nameSize + f.extraSize..Scan(d, p).next]
  }

  // Every entry with a known method passes the check against its local header.
  lemma RebuiltEntryIsCoherent(d: seq<Byte>, k: nat)
    requires Repair(d).Repaired? && k < |SurveyFrom(d, 0).starts|
    ensures var start := SurveyFrom(d, 0).starts[k];
            var f := FieldsAt(d, start);
            && (Coherent(Repair(d).output, start, EntryFor(f, start).info) <==>
                f.method_ == 0 || f.method_ == Z_DEFLATED || f.method_ == Z_BZIP2ED)
            && LocalVarSize(Repair(d).output, start) == f.nameSize + f.extraSize
  {
    var s, out := SurveyFrom(d, 0), Repair(d).output;
    var p := s.starts[k];
    assert AgreeTo(d, out, s.end);
    HeadersAgree(d, out, s.end, p);
    FieldInside(out, p);
    FieldInside(out, p + 8);
    FieldInside(out, p + 14);
    FieldInside(out, p + 18);
    FieldInside(out, p + 22);
    FieldInside(out, p + 26);
    FieldInside(out, p + 28);
  }

  lemma OpenedEntryIsHanded(out: seq<Byte>, f: LocalFields, p: nat, data: nat, body: seq<Byte>, step: CrcStep)
    requires f.compressed == f.uncompressed == |body| < TWO31
    requires data == p + SIZEZIPLOCALHEADER + f.nameSize + f.extraSize
    requires data + |body| <= |out| && out[data..data + |body|] == body
    ensures Handed(out, 0, OpenedState(EntryFor(f, p), f.nameSize + f.extraSize, false, step), body, 0, f.crc, step)
  {
    assert body[0..] == body && body[..0] == [];
  }

  // Opening a stored entry of the rebuilt archive starts a read of exactly the record's data.
  lemma RebuiltEntryReads(d: seq<Byte>, k: nat, step: CrcStep)
    requires Repair(d).Repaired? && k < |SurveyFrom(d, 0).starts|
    requires var f := FieldsAt(d, SurveyFrom(d, 0).starts[k]);
             f.method_ == 0 && f.compressed == f.uncompressed < TWO31
    ensures var start := SurveyFrom(d, 0).starts[k];
            var f := FieldsAt(d, start);
            Handed(Repair(d).output, 0, OpenedState(EntryFor(f, start), f.nameSize + f.extraSize, false, step),
                   LocalBody(d, start), 0, f.crc, step)
  {
    hide CentralHeader, CentralDirectory, EndRecord, FieldsAt, Handed, EntryFor, OpenedState, SurveyFrom;
    var s, out := SurveyFrom(d, 0), Repair(d).output;
    var p := s.starts[k];
    var f := FieldsAt(d, p);
    var data := p + SIZEZIPLOCALHEADER + f.nameSize + f.extraSize;
    assert AgreeTo(d, out, s.end);
    AgreeOnSlice(d, out, s.end, data, Scan(d, p).next);
    OpenedEntryIsHanded(out, f, p, data, LocalBody(d, p), step);
  }
}
