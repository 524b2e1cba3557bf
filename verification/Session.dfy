// Whole sessions with an archive, and what putting bytes in front of the file changes: nothing.
module Sessions {
  import opened Bytes
  import opened Options
  import opened ByteStreams
  import opened SignatureSearch
  import opened Crc
  import opened ZipFormat
  import opened Directories
  import opened StoredRead
  import opened EntryReaders

  // The open entry with its compression method, and whether a read had to inflate
  datatype OpenEntry = OpenEntry(method_: nat, state: ReadState, inflated: bool)

  datatype Session = Session(cursor: Cursor, saved: seq<FilePos>, reading: Option<OpenEntry>)

  datatype Call =
    | Move(op: Op)
    | FileInfoCall(name: Option<nat>, extra: Option<nat>, comment: Option<nat>)
    | OpenFile(raw: bool)
    | ReadFile(len: nat)
    | CloseFile
    | GlobalComment(n: nat)

  datatype Reply =
    | Returned(err: int)
    | Described(info: InfoResult)
    | Content(bytes: seq<Byte>, ok: bool)
    | Comment(text: Option<seq<Byte>>)
    | Compressed

  // A read of len bytes that takes anything out of the inflating stream
  predicate NeedsInflating(o: OpenEntry, len: nat)
  {
    o.method_ != 0 && !o.state.raw && (if o.inflated then len > 0 else Room(o.state, len) > 0)
  }

  // One call of the public interface. Inflating is not modelled: a read that inflates is a reply
  // of its own, and so is closing an entry that was read this way.
  function Do(a: Archive, crcStep: CrcStep, s: Session, call: Call): (Session, Reply)
  {
    match call
    case Move(op) =>
      DirectoriesEnd(a);
      var step := Apply(DirectoryOf(a), |a.data|, s.cursor, s.saved, op);
      (s.(cursor := step.cursor, saved := step.saved), Returned(step.err))
    case FileInfoCall(n, x, c) =>
      (s, Described(GetInfo(a.data, s.cursor.pos + a.byteBefore, a.ulongMax, n, x, c)))
    case OpenFile(raw) =>
      var e := s.cursor.entry;
      var p := e.offsetCurfile + a.byteBefore;
      if !s.cursor.ok then (s, Returned(UNZ_PARAMERROR))
      else if !Coherent(a.data, p, e.info) then (s.(reading := None), Returned(UNZ_BADZIPFILE))
      else
        var effectiveRaw := raw || e.info.method_ == Z_BZIP2ED;
        var state := OpenedState(e, LocalVarSize(a.data, p), effectiveRaw, crcStep);
        (s.(reading := Some(OpenEntry(e.info.method_, state, false))), Returned(UNZ_OK))
    case ReadFile(len) =>
      (match s.reading
       case None => (s, Returned(UNZ_PARAMERROR))
       case Some(o) =>
         if NeedsInflating(o, len) then (s.(reading := Some(o.(inflated := true))), Compressed)
         else
           var r := Read(a.data, a.byteBefore, o.state, len);
           (s.(reading := Some(o.(state := r.state))), Content(r.out, r.ok)))
    case CloseFile =>
      (s.(reading := None),
       match s.reading
       case None => Returned(UNZ_PARAMERROR)
       case Some(o) => if o.inflated then Compressed else Returned(CloseError(o.state)))
    case GlobalComment(n) =>
      var p, w := a.centralPos + 22, Min(n, a.sizeComment);
      (s, Comment(if CanRead(a.data, p, w) then Some(Section(a.data, p, w)) else None))
  }

  function RunSession(a: Archive, crcStep: CrcStep, s: Session, calls: seq<Call>): (Session, seq<Reply>)
    decreases |calls|
  {
    if calls == [] then (s, [])
    else
      var (s1, reply) := Do(a, crcStep, s, calls[0]);
      var (s2, replies) := RunSession(a, crcStep, s1, calls[1..]);
      (s2, [reply] + replies)
  }

  // ---------- self-extractors ----------

  // The same archive behind pre.
  function Behind(pre: seq<Byte>, a: Archive): Archive
  {
    a.(data := pre + a.data, byteBefore := |pre| + a.byteBefore, centralPos := |pre| + a.centralPos)
  }

  // full reads n bytes further on what d reads.
  ghost predicate ReadsAlike(full: seq<Byte>, n: nat, d: seq<Byte>)
  {
    && |full| == n + |d|
    && (forall q: nat {:trigger Short(d, q)} :: Short(full, n + q) == Short(d, q))
    && (forall q: nat {:trigger Long(d, q)} :: Long(full, n + q) == Long(d, q))
    && (forall q: nat {:trigger Long64(d, q)} :: Long64(full, n + q) == Long64(d, q))
  }

  lemma PrefixReadsAlike(pre: seq<Byte>, d: seq<Byte>)
    ensures ReadsAlike(pre + d, |pre|, d)
  {
    hide Short, Long, Long64;
    forall q: nat
      ensures Short(pre + d, |pre| + q) == Short(d, q) && Long(pre + d, |pre| + q) == Long(d, q)
              && Long64(pre + d, |pre| + q) == Long64(d, q)
    {
      FieldShifts(pre, d, q, 0);
    }
  }

  lemma HeaderAlike(full: seq<Byte>, n: nat, d: seq<Byte>, p: nat)
    requires ReadsAlike(full, n, d)
    ensures HeaderAt(full, n + p) == HeaderAt(d, p)
    ensures NameStart(full, n + p) == n + NameStart(d, p)
  {
  }

  lemma FieldAlike(full: seq<Byte>, n: nat, d: seq<Byte>, p: nat)
    requires ReadsAlike(full, n, d)
    ensures Short(full, n + p) == Short(d, p) && Short(full, n + p + 2) == Short(d, p + 2)
    ensures Long(full, n + p) == Long(d, p) && Long64(full, n + p) == Long64(d, p)
    ensures Adv(full, n + p, 4) == n + Adv(d, p, 4) && Adv(full, n + p, 8) == n + Adv(d, p, 8)
  {
    hide Short, Long, Long64;
    assert n + p + 2 == n + (p + 2);
  }

  lemma WidenedAlike(full: seq<Byte>, n: nat, d: seq<Byte>, p: nat, field: nat, ulongMax: nat)
    requires ReadsAlike(full, n, d)
    ensures var (x, q) := Widened(d, p, field, ulongMax);
            Widened(full, n + p, field, ulongMax) == (x, n + q)
  {
    hide ReadsAlike, Long64, Adv;
    FieldAlike(full, n, d, p);
  }

  lemma Zip64FieldsAlike(full: seq<Byte>, n: nat, d: seq<Byte>, p: nat, e: Entry, ulongMax: nat)
    requires ReadsAlike(full, n, d)
    ensures var (f, q) := Zip64Fields(d, p, e, ulongMax);
            Zip64Fields(full, n + p, e, ulongMax) == (f, n + q)
  {
    hide ReadsAlike, Widened, Adv;
    WidenedAlike(full, n, d, p, e.info.uncompressedSize, ulongMax);
    var p1 := Widened(d, p, e.info.uncompressedSize, ulongMax).1;
    WidenedAlike(full, n, d, p1, e.info.compressedSize, ulongMax);
    var p2 := Widened(d, p1, e.info.compressedSize, ulongMax).1;
    WidenedAlike(full, n, d, p2, e.offsetCurfile, ulongMax);
    FieldAlike(full, n, d, Widened(d, p2, e.offsetCurfile, ulongMax).1);
  }

  lemma BlockAlike(full: seq<Byte>, n: nat, d: seq<Byte>, p: nat, e: Entry, ulongMax: nat)
    requires ReadsAlike(full, n, d)
    ensures Short(full, n + p + 2) == Short(d, p + 2)
    ensures var (f, q) := BlockAt(d, p, e, ulongMax);
            BlockAt(full, n + p, e, ulongMax) == (f, n + q)
  {
    hide ReadsAlike, Zip64Fields, Short, Adv;
    FieldAlike(full, n, d, p);
    Zip64FieldsAlike(full, n, d, Adv(d, p, 4), e, ulongMax);
  }

  lemma {:induction false} WalkAlike(full: seq<Byte>, n: nat, d: seq<Byte>, p: nat, acc: nat, size: nat, e: Entry,
          ulongMax: nat)
    requires ReadsAlike(full, n, d)
    ensures var (f, q) := ExtraWalk(d, p, acc, size, e, ulongMax);
            ExtraWalk(full, n + p, acc, size, e, ulongMax) == (f, n + q)
    decreases size - acc
  {
    hide ReadsAlike, BlockAt, Short;
    if size <= acc {
    } else {
      BlockAlike(full, n, d, p, e, ulongMax);
      var (e', p') := BlockAt(d, p, e, ulongMax);
      WalkAlike(full, n, d, p', acc + 4 + Short(d, p + 2), size, e', ulongMax);
    }
  }

  lemma SectionShifts(pre: seq<Byte>, d: seq<Byte>, p: nat, n: nat)
    ensures CanRead(pre + d, |pre| + p, n) == CanRead(d, p, n)
    ensures CanRead(d, p, n) ==> Section(pre + d, |pre| + p, n) == Section(d, p, n)
  {
    if 0 < n && p + n <= |d| {
      assert (pre + d)[|pre| + p..|pre| + p + n] == d[p..p + n];
    }
  }

  lemma SectionsShift(pre: seq<Byte>, d: seq<Byte>, q: nat, h: Entry, ulongMax: nat, name: Option<nat>,
          extra: Option<nat>, comment: Option<nat>)
    ensures Sections(pre + d, |pre| + q, h, ulongMax, name, extra, comment)
         == Sections(d, q, h, ulongMax, name, extra, comment)
  {
    hide ExtraWalk, Section;
    var x := q + h.info.sizeFilename;
    assert |pre| + q + h.info.sizeFilename == |pre| + x;
    PrefixReadsAlike(pre, d);
    WalkAlike(pre + d, |pre|, d, x, 0, h.info.sizeFileExtra, h, ulongMax);
    var c := ExtraWalk(d, x, 0, h.info.sizeFileExtra, h, ulongMax).1;
    SectionShifts(pre, d, q, Wanted(name, h.info.sizeFilename));
    SectionShifts(pre, d, x, Wanted(extra, h.info.sizeFileExtra));
    SectionShifts(pre, d, c, Wanted(comment, h.info.sizeFileComment));
  }

  lemma InfoShifts(pre: seq<Byte>, d: seq<Byte>, p: nat, ulongMax: nat, name: Option<nat>, extra: Option<nat>,
          comment: Option<nat>)
    ensures GetInfo(pre + d, |pre| + p, ulongMax, name, extra, comment) == GetInfo(d, p, ulongMax, name, extra, comment)
  {
    hide ReadsAlike, HeaderAt, NameStart, Sections, Long;
    PrefixReadsAlike(pre, d);
    FieldAlike(pre + d, |pre|, d, p);
    HeaderAlike(pre + d, |pre|, d, p);
    SectionsShift(pre, d, NameStart(d, p), HeaderAt(d, p), ulongMax, name, extra, comment);
  }

  lemma EntryShifts(pre: seq<Byte>, d: seq<Byte>, p: nat, ulongMax: nat)
    ensures GetEntry(pre + d, |pre| + p, ulongMax) == GetEntry(d, p, ulongMax)
  {
    hide GetInfo, EntryAt;
    NullBuffersDecode(d, p, ulongMax);
    NullBuffersDecode(pre + d, |pre| + p, ulongMax);
    InfoShifts(pre, d, p, ulongMax, None, None, None);
  }

  lemma LocalHeaderAlike(full: seq<Byte>, n: nat, d: seq<Byte>, p: nat, info: FileInfo)
    requires ReadsAlike(full, n, d)
    ensures Coherent(full, n + p, info) == Coherent(d, p, info)
    ensures LocalVarSize(full, n + p) == LocalVarSize(d, p)
  {
  }

  lemma RoundShifts(pre: seq<Byte>, d: seq<Byte>, before: nat, s: ReadState, want: nat)
    ensures Round(pre + d, |pre| + before, s, want) == Round(d, before, s, want)
  {
    if NeedsRefill(s) && Position(s, before) + Chunk(s) <= |d| {
      SectionShifts(pre, d, Position(s, before), Chunk(s));
    }
  }

  lemma {:induction false} ReadLoopShifts(pre: seq<Byte>, d: seq<Byte>, before: nat, s: ReadState, want: nat)
    ensures ReadLoop(pre + d, |pre| + before, s, want) == ReadLoop(d, before, s, want)
    decreases want
  {
    hide Round;
    if want == 0 {
    } else {
      var v := Round(d, before, s, want);
      RoundShifts(pre, d, before, s, want);
      if v.out != [] {
        ReadLoopShifts(pre, d, before, v.state, want - |v.out|);
      }
    }
  }

  // Directories that decode alike move their cursors alike.
  ghost predicate DecodeAlike(dir: Directory, dir': Directory)
  {
    && dir.numberEntry == dir'.numberEntry && dir.offset == dir'.offset
    && forall p: nat :: dir.entryAt(p) == dir'.entryAt(p) && dir.nameAt(p) == dir'.nameAt(p)
  }

  lemma {:induction false} LocateAlike(dir: Directory, limit: nat, dir': Directory, limit': nat, c: Cursor,
          wanted: seq<Byte>, mode: int)
    requires DecodeAlike(dir, dir') && EndsBy(dir, limit) && EndsBy(dir', limit')
    ensures LocateFrom(dir, limit, c, wanted, mode) == LocateFrom(dir', limit', c, wanted, mode)
    decreases if c.pos < limit then limit - c.pos else 0
  {
    assert dir.nameAt(c.pos) == dir'.nameAt(c.pos);
    var (err, c') := GoToNext(dir, c);
    assert GoToNext(dir', c) == (err, c');
    if dir.nameAt(c.pos).Info? && !NameMatches(dir.nameAt(c.pos).name, wanted, mode) && err == UNZ_OK {
      LocateAlike(dir, limit, dir', limit', c', wanted, mode);
    }
  }

  lemma ApplyAlike(dir: Directory, limit: nat, dir': Directory, limit': nat, c: Cursor, saved: seq<FilePos>, op: Op)
    requires DecodeAlike(dir, dir') && EndsBy(dir, limit) && EndsBy(dir', limit')
    ensures Apply(dir, limit, c, saved, op) == Apply(dir', limit', c, saved, op)
  {
    match op
    case LocateFile(wanted, mode) => LocateAlike(dir, limit, dir', limit', GoToFirst(dir, c).1, wanted, mode);
    case _ =>
  }

  lemma PrefixDecodesAlike(pre: seq<Byte>, a: Archive)
    ensures DecodeAlike(DirectoryOf(Behind(pre, a)), DirectoryOf(a))
  {
    hide GetInfo, GetEntry, EndsBy;
    var dir, dir' := DirectoryOf(Behind(pre, a)), DirectoryOf(a);
    forall p: nat ensures dir.entryAt(p) == dir'.entryAt(p) && dir.nameAt(p) == dir'.nameAt(p) {
      InfoShifts(pre, a.data, p + a.byteBefore, a.ulongMax, Some(UNZ_MAXFILENAMEINZIP), None, None);
      EntryShifts(pre, a.data, p + a.byteBefore, a.ulongMax);
      assert p + Behind(pre, a).byteBefore == |pre| + (p + a.byteBefore);
    }
  }

  lemma MovesAlike(pre: seq<Byte>, a: Archive, crcStep: CrcStep, s: Session, op: Op)
    ensures Do(Behind(pre, a), crcStep, s, Move(op)) == Do(a, crcStep, s, Move(op))
  {
    var b := Behind(pre, a);
    PrefixDecodesAlike(pre, a);
    DirectoriesEnd(a);
    DirectoriesEnd(b);
    ApplyAlike(DirectoryOf(b), |b.data|, DirectoryOf(a), |a.data|, s.cursor, s.saved, op);
  }

  lemma OpensAlike(pre: seq<Byte>, a: Archive, crcStep: CrcStep, s: Session, raw: bool)
    ensures Do(Behind(pre, a), crcStep, s, OpenFile(raw)) == Do(a, crcStep, s, OpenFile(raw))
  {
    hide LocalVarSize, Coherent;
    var e := s.cursor.entry;
    PrefixReadsAlike(pre, a.data);
    LocalHeaderAlike(pre + a.data, |pre|, a.data, e.offsetCurfile + a.byteBefore, e.info);
    assert e.offsetCurfile + Behind(pre, a).byteBefore == |pre| + (e.offsetCurfile + a.byteBefore);
  }

  lemma CallsAlike(pre: seq<Byte>, a: Archive, crcStep: CrcStep, s: Session, call: Call)
    ensures Do(Behind(pre, a), crcStep, s, call) == Do(a, crcStep, s, call)
  {
    hide GetInfo, ReadLoop, Section, DirectoryOf, Coherent;
    var b := Behind(pre, a);
    match call
    case Move(op) => MovesAlike(pre, a, crcStep, s, op);
    case FileInfoCall(n, x, c) =>
      InfoShifts(pre, a.data, s.cursor.pos + a.byteBefore, a.ulongMax, n, x, c);
      assert s.cursor.pos + b.byteBefore == |pre| + (s.cursor.pos + a.byteBefore);
    case OpenFile(raw) => OpensAlike(pre, a, crcStep, s, raw);
    case ReadFile(len) =>
      if s.reading.Some? {
        ReadLoopShifts(pre, a.data, a.byteBefore, s.reading.value.state, Room(s.reading.value.state, len));
      }
    case CloseFile =>
    case GlobalComment(n) =>
      SectionShifts(pre, a.data, a.centralPos + 22, Min(n, a.sizeComment));
      assert b.centralPos + 22 == |pre| + (a.centralPos + 22);
  }

  // Every session goes the same way, reply by reply, when any bytes are put in front.
  lemma {:induction false} SessionsAlike(pre: seq<Byte>, a: Archive, crcStep: CrcStep, s: Session, calls: seq<Call>)
    ensures RunSession(Behind(pre, a), crcStep, s, calls) == RunSession(a, crcStep, s, calls)
    decreases |calls|
  {
    if calls == [] {
    } else {
      CallsAlike(pre, a, crcStep, s, calls[0]);
      SessionsAlike(pre, a, crcStep, Do(a, crcStep, s, calls[0]).0, calls[1..]);
    }
  }

  lemma CheckedAlike(full: seq<Byte>, n: nat, d: seq<Byte>, ulongMax: nat, p: nat, disk: nat, diskWithCD: nat,
          number: nat, numberCD: nat, size: nat, offset: nat, comment: nat)
    ensures match CheckedArchive(d, ulongMax, p, disk, diskWithCD, number, numberCD, size, offset, comment, false)
            case None => true
            case Some(a) =>
              CheckedArchive(full, ulongMax, n + p, disk, diskWithCD, number, numberCD, size, offset, comment, false)
              == Some(a.(data := full, byteBefore := n + a.byteBefore, centralPos := n + a.centralPos))
  {
  }

  lemma NoLocatorNoZip64(d: seq<Byte>)
    requires LastSig(d, 6, 7) == 0
    ensures SearchCentralDir64(d) == 0
  {
  }

  lemma EndRecordAlike(full: seq<Byte>, n: nat, d: seq<Byte>, ulongMax: nat)
    requires ReadsAlike(full, n, d) && OpenArchive(d, ulongMax).Some?
    requires LastSig(d, 6, 7) == LastSig(full, 6, 7) == 0 && LastSig(full, 5, 6) == n + LastSig(d, 5, 6)
    ensures var a := OpenArchive(d, ulongMax).value;
            OpenArchive(full, ulongMax)
            == Some(a.(data := full, byteBefore := n + a.byteBefore, centralPos := n + a.centralPos))
  {
    hide SearchCentralDir64, CheckedArchive, LastSig, Pair, Quad;
    var p := LastSig(d, 5, 6);
    NoLocatorNoZip64(d);
    NoLocatorNoZip64(full);
    CheckedAlike(full, n, d, ulongMax, p, Short(d, p + 4), Short(d, p + 6), Short(d, p + 8),
                 Short(d, p + 10), Long(d, p + 12), Long(d, p + 16), Short(d, p + 20));
  }

  // An archive that opens still opens with any bytes in front of it, as the same archive
  // further back, as long as no Zip64 locator shows up in the search window.
  lemma PrefixStillOpens(pre: seq<Byte>, d: seq<Byte>, ulongMax: nat)
    requires LastSig(pre + d, 6, 7) == 0 && OpenArchive(d, ulongMax).Some?
    ensures OpenArchive(pre + d, ulongMax) == Some(Behind(pre, OpenArchive(d, ulongMax).value))
  {
    if LastSig(d, 6, 7) != 0 {
      LastSigShifts(pre, d, 6, 7);
    }
    LastSigShifts(pre, d, 5, 6);
    PrefixReadsAlike(pre, d);
    EndRecordAlike(pre + d, |pre|, d, ulongMax);
  }
}
