// When an entry opens: its local header, written field by field (APPNOTE 4.3.7), against its
// directory entry.
module EntryOpenings {
  import opened Bytes
  import opened ByteStreams
  import opened Options
  import opened Crc
  import opened ZipFormat
  import opened StoredRead
  import opened EntryReaders
  import opened Mztools
  import opened RepairOpens
  import opened RepairRoundTrip
  import opened Sessions
  import opened StoredSessions

  // The header tells the same as the directory. A size of all ones stands for any size, and bit 3
  // of the flag says that crc and sizes follow the data, so that those of the header do not count.
  predicate Agrees(f: LocalFields, info: FileInfo)
  {
    && f.method_ == info.method_ && (f.method_ == 0 || f.method_ == 8 || f.method_ == 12)
    && f.nameSize == info.sizeFilename
    && (f.flag / 8 % 2 == 1
        || (&& f.crc == info.crc
            && (f.compressed == info.compressedSize || f.compressed == 0xFFFF_FFFF)
            && (f.uncompressed == info.uncompressedSize || f.uncompressed == 0xFFFF_FFFF)))
  }

  lemma HeaderInside(d: seq<Byte>, p: nat, f: LocalFields)
    requires InRange(f) && At(d, p, LocalHeader(f))
    ensures Long(d, p) == 0x0403_4b50 && Short(d, p + 6) == f.flag && Short(d, p + 8) == f.method_
    ensures Long(d, p + 14) == f.crc && Long(d, p + 18) == f.compressed && Long(d, p + 22) == f.uncompressed
    ensures Short(d, p + 26) == f.nameSize && Short(d, p + 28) == f.extraSize
  {
    hide R16, R32, Short, Long, LocalHeader;
    LocalHeaderReads(d, p, f);
    FieldInside(d, p);
    FieldInside(d, p + 6);
    FieldInside(d, p + 8);
    FieldInside(d, p + 14);
    FieldInside(d, p + 18);
    FieldInside(d, p + 22);
    FieldInside(d, p + 26);
    FieldInside(d, p + 28);
  }

  lemma AgreesIsCoherent(d: seq<Byte>, p: nat, f: LocalFields, info: FileInfo)
    requires InRange(f) && At(d, p, LocalHeader(f))
    ensures Coherent(d, p, info) <==> Agrees(f, info)
    ensures LocalVarSize(d, p) == f.nameSize + f.extraSize
  {
    hide Short, Long, LocalHeader;
    HeaderInside(d, p, f);
  }

  // The current entry opens exactly if its local header agrees with the directory. Reading then
  // starts behind the header with its name and extra field, with the sizes and the crc of the
  // directory; otherwise nothing is left open.
  lemma OpensExactly(a: Archive, step: CrcStep, s: Session, raw: bool, f: LocalFields)
    requires var p := s.cursor.entry.offsetCurfile + a.byteBefore;
             s.cursor.ok && InRange(f) && At(a.data, p, LocalHeader(f))
    ensures var e := s.cursor.entry;
            var start := e.offsetCurfile + 30 + f.nameSize + f.extraSize;
            var state := ReadState(start, e.info.compressedSize, e.info.uncompressedSize, [], 0, 0, e.info.crc,
                                   raw || f.method_ == 12, step);
            Do(a, step, s, OpenFile(raw))
            == if Agrees(f, e.info) then (s.(reading := Some(OpenEntry(f.method_, state, false))), Returned(0))
               else (s.(reading := None), Returned(-103))
  {
    hide Coherent, LocalVarSize, LocalHeader;
    AgreesIsCoherent(a.data, s.cursor.entry.offsetCurfile + a.byteBefore, f, s.cursor.entry.info);
  }

  // Without a signature there is no local header, without a current entry nothing to open, and without
  // an open entry nothing to read or to close.
  lemma NothingToOpen(a: Archive, step: CrcStep, s: Session, raw: bool, len: nat)
    ensures !s.cursor.ok ==> Do(a, step, s, OpenFile(raw)) == (s, Returned(-102))
    ensures s.cursor.ok && Long(a.data, s.cursor.entry.offsetCurfile + a.byteBefore) != 0x0403_4b50 ==>
              Do(a, step, s, OpenFile(raw)) == (s.(reading := None), Returned(-103))
    ensures s.reading == None ==>
              Do(a, step, s, ReadFile(len)) == (s, Returned(-102)) && Do(a, step, s, CloseFile) == (s, Returned(-102))
  {
  }

  // A local entry: its header, name and extra field, and its data as they are stored
  ghost predicate EntryIsAt(d: seq<Byte>, p: nat, f: LocalFields, name: seq<Byte>, extra: seq<Byte>, body: seq<Byte>)
  {
    && InRange(f) && |name| == f.nameSize && |extra| == f.extraSize
    && At(d, p, LocalHeader(f) + name + extra + body)
  }

  lemma StandingParts(d: seq<Byte>, p: nat, f: LocalFields, name: seq<Byte>, extra: seq<Byte>, body: seq<Byte>)
    requires EntryIsAt(d, p, f, name, extra, body)
    ensures At(d, p, LocalHeader(f)) && At(d, p + 30 + f.nameSize + f.extraSize, body)
  {
    hide At, LocalHeader;
    var front := LocalHeader(f) + name + extra;
    AtSplits(d, p, front, body);
    assert front == LocalHeader(f) + (name + extra);
    AtSplits(d, p, LocalHeader(f), name + extra);
  }

  lemma StandingIsHanded(d: seq<Byte>, before: nat, e: Entry, r: bool, varSize: nat, body: seq<Byte>, step: CrcStep)
    requires At(d, e.offsetCurfile + before + 30 + varSize, body) && |body| == e.info.compressedSize < TWO64
    requires e.info.uncompressedSize < TWO64 && (!r ==> e.info.uncompressedSize == |body|)
    ensures Handed(d, before, OpenedState(e, varSize, r, step), body, 0, e.info.crc, step)
  {
    assert body[0..] == body && body[..0] == [];
  }

  lemma WrittenEntryIsReady(a: Archive, step: CrcStep, s: Session, raw: bool, f: LocalFields, name: seq<Byte>,
          extra: seq<Byte>, body: seq<Byte>)
    requires var e := s.cursor.entry;
             && EntryIsAt(a.data, e.offsetCurfile + a.byteBefore, f, name, extra, body)
             && Agrees(f, e.info) && |body| == e.info.compressedSize < TWO64 && e.info.uncompressedSize < TWO64
             && (raw || f.method_ == 12 || e.info.uncompressedSize == |body|)
    ensures var e := s.cursor.entry;
            var p, r := e.offsetCurfile + a.byteBefore, ReadRaw(raw, e.info.method_);
            && Coherent(a.data, p, e.info)
            && Handed(a.data, a.byteBefore, OpenedState(e, LocalVarSize(a.data, p), r, step), body, 0, e.info.crc, step)
  {
    hide Handed, Coherent, LocalVarSize, OpenedState, At, LocalHeader, InRange, EntryIsAt;
    var e := s.cursor.entry;
    var p := e.offsetCurfile + a.byteBefore;
    StandingParts(a.data, p, f, name, extra, body);
    InRangeOf(a.data, p, f, name, extra, body);
    AgreesIsCoherent(a.data, p, f, e.info);
    StandingIsHanded(a.data, a.byteBefore, e, ReadRaw(raw, f.method_), f.nameSize + f.extraSize, body, step);
  }

  lemma InRangeOf(d: seq<Byte>, p: nat, f: LocalFields, name: seq<Byte>, extra: seq<Byte>, body: seq<Byte>)
    requires EntryIsAt(d, p, f, name, extra, body)
    ensures InRange(f)
  {
    hide InRange, LocalHeader, At;
  }

  // Any entry whose header agrees reads back: the data of a stored one, and in raw mode the
  // compressed data of every other.
  lemma WrittenEntryReadsBack(a: Archive, step: CrcStep, s: Session, raw: bool, f: LocalFields, name: seq<Byte>,
          extra: seq<Byte>, body: seq<Byte>, lens: seq<nat>)
    requires var e := s.cursor.entry;
             && s.cursor.ok && EntryIsAt(a.data, e.offsetCurfile + a.byteBefore, f, name, extra, body)
             && Agrees(f, e.info) && |body| == e.info.compressedSize < TWO64 && e.info.uncompressedSize < TWO64
             && (raw || f.method_ == 12 || (f.method_ == 0 && e.info.uncompressedSize == |body|))
    ensures var (end, replies) := RunSession(a, step, s, OpenReadClose(raw, lens));
            && end == s.(reading := None) && |replies| == |lens| + 2 && replies[0] == Returned(0)
            && Deals(body, 0, lens, replies[1..|lens| + 1])
            && Dealt(replies[1..|lens| + 1]) == body[..Min(|body|, Sum(lens))]
            && replies[|lens| + 1]
            == CloseReply(raw || f.method_ == 12, body, Sum(lens), s.cursor.entry.info.crc, step)
  {
    hide Handed, Coherent, LocalVarSize, OpenedState, Deals, RunSession, Sum, CloseReply, Dealt, OpenReadClose, At,
        LocalHeader, InRange, EntryIsAt;
    WrittenEntryIsReady(a, step, s, raw, f, name, extra, body);
    EntryReadsBack(a, step, s, raw, body, s.cursor.entry.info.crc, lens);
    var (_, replies) := RunSession(a, step, s, OpenReadClose(raw, lens));
    DealsOut(body, 0, lens, replies[1..|lens| + 1]);
  }

  // A stored entry that was written to a stream: its header knows neither crc nor sizes, only the
  // directory does.
  lemma StreamedEntryReadsBack(a: Archive, step: CrcStep, s: Session, f: LocalFields, name: seq<Byte>,
          extra: seq<Byte>, body: seq<Byte>, lens: seq<nat>)
    requires var e := s.cursor.entry;
             && s.cursor.ok && EntryIsAt(a.data, e.offsetCurfile + a.byteBefore, f, name, extra, body)
             && f.flag / 8 % 2 == 1 && f.crc == 0 && f.compressed == 0 && f.uncompressed == 0
             && f.method_ == 0 && e.info.method_ == 0 && f.nameSize == e.info.sizeFilename
             && |body| == e.info.compressedSize == e.info.uncompressedSize < TWO64
    ensures var (_, replies) := RunSession(a, step, s, OpenReadClose(false, lens));
            && |replies| == |lens| + 2 && replies[0] == Returned(0)
            && Dealt(replies[1..|lens| + 1]) == body[..Min(|body|, Sum(lens))]
            && replies[|lens| + 1]
            == Returned(if Sum(lens) >= |body| && Crc32(step, 0, body) != s.cursor.entry.info.crc then -105 else 0)
  {
    hide EntryIsAt, RunSession, Deals, Dealt, Sum, OpenReadClose, Crc32;
    WrittenEntryReadsBack(a, step, s, false, f, name, extra, body, lens);
  }

  // The level that opening reports, from the bits 1 and 2 of the flag of the directory
  lemma LevelOfBits(high: nat, bit2: nat, bit1: nat, bit0: nat)
    requires bit2 <= 1 && bit1 <= 1 && bit0 <= 1
    ensures Level(8 * high + 4 * bit2 + 2 * bit1 + bit0)
         == if bit2 == 0 then if bit1 == 0 then 6 else 9 else if bit1 == 0 then 2 else 1
  {
    assert (8 * high + 4 * bit2 + 2 * bit1 + bit0) / 2 == 4 * high + 2 * bit2 + bit1;
  }
}
