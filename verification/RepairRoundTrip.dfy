// From lists of files to local records, through unzRepair and unzip.c, and back to the list.
module RepairRoundTrip {
  import opened Bytes
  import opened Crc
  import opened SignatureSearch
  import opened ZipFormat
  import opened Directories
  import opened StoredRead
  import opened EntryReaders
  import opened Mztools
  import opened RepairOpens

  datatype LocalFile = LocalFile(
    version: nat, flag: nat, method_: nat, time: nat, date: nat, crc: nat, uncompressed: nat,
    name: seq<Byte>, extra: seq<Byte>, data: seq<Byte>)

  function FieldsOf(r: LocalFile): LocalFields
  {
    LocalFields(r.version, r.flag, r.method_, r.time, r.date, r.crc, |r.data|, r.uncompressed, |r.name|, |r.extra|)
  }

  // A local header (APPNOTE 4.3.7) with these fields
  function LocalHeader(f: LocalFields): (h: seq<Byte>)
    ensures |h| == SIZEZIPLOCALHEADER
  {
    W32(0x0403_4b50) + W16(f.version) + W16(f.flag) + W16(f.method_) + W16(f.time) + W16(f.date)
    + W32(f.crc) + W32(f.compressed) + W32(f.uncompressed) + W16(f.nameSize) + W16(f.extraSize)
  }

  function Encode(r: LocalFile): seq<Byte>
  {
    LocalHeader(FieldsOf(r)) + r.name + r.extra + r.data
  }

  function EncodeAll(rs: seq<LocalFile>): seq<Byte>
  {
    if rs == [] then [] else Encode(rs[0]) + EncodeAll(rs[1..])
  }

  // Recorded sizes are those of the data, names and extra fields fit the buffers of unzRepair,
  // and an empty file has no size of its own.
  ghost predicate Encodable(r: LocalFile)
  {
    && InRange(FieldsOf(r)) && 1 <= |r.name| <= FILENAME_BUFFER && |r.extra| <= EXTRA_BUFFER && |r.data| < TWO31
    && (r.data == [] ==> r.uncompressed == 0)
  }

  ghost predicate NotALocalHeader(tail: seq<Byte>)
  {
    |tail| < SIZEZIPLOCALHEADER || R32(tail, 0) != LOCAL_MAGIC
  }

  // ---------- one record ----------

  lemma HeaderFieldReads(d: seq<Byte>, p: nat, h: seq<Byte>, k: nat, n: nat)
    requires At(d, p, h)
    ensures k + 2 <= |h| && h[k..k + 2] == W16(n) && n < TWO16 ==> R16(d, p + k) == n
    ensures k + 4 <= |h| && h[k..k + 4] == W32(n) && n < TWO32 ==> R32(d, p + k) == n
  {
    hide W16, W32, R16, R32;
    if k + 2 <= |h| {
      SubSlice(d, p, p + |h|, k, k + 2);
      if h[k..k + 2] == W16(n) {
        WrittenFieldReads16(d, p + k, n);
      }
    }
    if k + 4 <= |h| {
      SubSlice(d, p, p + |h|, k, k + 4);
      if h[k..k + 4] == W32(n) {
        WrittenFieldReads32(d, p + k, n);
      }
    }
  }

  lemma LocalHeaderReads(d: seq<Byte>, p: nat, f: LocalFields)
    requires InRange(f) && At(d, p, LocalHeader(f))
    ensures R32(d, p) == LOCAL_MAGIC && FieldsAt(d, p) == f
  {
    hide W16, W32, R16, R32, At;
    var h := LocalHeader(f);
    assert h[0..4] == W32(0x0403_4b50) && h[4..6] == W16(f.version) && h[6..8] == W16(f.flag)
        && h[8..10] == W16(f.method_);
    assert h[10..12] == W16(f.time) && h[12..14] == W16(f.date) && h[14..18] == W32(f.crc);
    assert h[18..22] == W32(f.compressed) && h[22..26] == W32(f.uncompressed);
    assert h[26..28] == W16(f.nameSize) && h[28..30] == W16(f.extraSize);
    HeaderFieldReads(d, p, h, 0, 0x0403_4b50);
    HeaderFieldReads(d, p, h, 4, f.version);
    HeaderFieldReads(d, p, h, 6, f.flag);
    HeaderFieldReads(d, p, h, 8, f.method_);
    HeaderFieldReads(d, p, h, 10, f.time);
    HeaderFieldReads(d, p, h, 12, f.date);
    HeaderFieldReads(d, p, h, 14, f.crc);
    HeaderFieldReads(d, p, h, 18, f.compressed);
    HeaderFieldReads(d, p, h, 22, f.uncompressed);
    HeaderFieldReads(d, p, h, 26, f.nameSize);
    HeaderFieldReads(d, p, h, 28, f.extraSize);
  }

  // Parts of an encoded record
  lemma RecordParts(d: seq<Byte>, p: nat, r: LocalFile)
    requires At(d, p, Encode(r))
    ensures var name := p + SIZEZIPLOCALHEADER;
            && At(d, p, LocalHeader(FieldsOf(r))) && At(d, name, r.name) && At(d, name, r.name + r.extra)
            && At(d, name + |r.name| + |r.extra|, r.data)
  {
    hide LocalHeader, At;
    var h := LocalHeader(FieldsOf(r));
    assert Encode(r) == h + ((r.name + r.extra) + r.data);
    AtSplits(d, p, h, (r.name + r.extra) + r.data);
    AtSplits(d, p + |h|, r.name + r.extra, r.data);
    AtSplits(d, p + |h|, r.name, r.extra);
  }

  // How much data follows a header: as much as the compressed size says or, if that is 0, the
  // uncompressed size. A size of 2 GB or more is negative in an int, and nothing is copied.
  function DataFor(f: LocalFields): nat
  {
    var size := if f.compressed != 0 then f.compressed else f.uncompressed;
    if size < 0x8000_0000 then size else 0
  }

  // Any header with a name, and with the name, extra field and data that it announces behind it, is
  // a record.
  lemma AnyRecordScans(d: seq<Byte>, p: nat, f: LocalFields, name: seq<Byte>, extra: seq<Byte>, data: seq<Byte>)
    requires InRange(f) && At(d, p, LocalHeader(f) + (name + extra + data))
    requires 1 <= |name| == f.nameSize <= 256 && |extra| == f.extraSize <= 1024 && |data| == DataFor(f)
    ensures Scan(d, p) == Record(p + 30 + |name| + |extra| + |data|) && FieldsAt(d, p) == f
  {
    hide LocalHeader, FieldsAt, R32, At;
    AtSplits(d, p, LocalHeader(f), name + extra + data);
    LocalHeaderReads(d, p, f);
    assert p + 30 + |name| + |extra| + |data| <= |d| by {
      AtFits(d, p + 30, name + extra + data);
    }
  }

  lemma AtFits(d: seq<Byte>, p: nat, e: seq<Byte>)
    requires At(d, p, e)
    ensures p + |e| <= |d|
  {
  }

  // An encoded record is found whole, with the fields, name, extra field and data it was made of.
  lemma EncodedRecordScans(d: seq<Byte>, p: nat, r: LocalFile)
    requires Encodable(r) && At(d, p, Encode(r))
    ensures Scan(d, p) == Record(p + |Encode(r)|)
    ensures FieldsAt(d, p) == FieldsOf(r) && NameAndExtra(d, p) == r.name + r.extra && LocalName(d, p) == r.name
    ensures LocalBody(d, p) == r.data && RecordData(d, p) == |r.data|
  {
    hide LocalHeader, FieldsAt, R32;
    RecordParts(d, p, r);
    LocalHeaderReads(d, p, FieldsOf(r));
  }

  // ---------- all of them ----------

  function Starts(rs: seq<LocalFile>, p: nat): (s: seq<nat>)
    ensures |s| == |rs|
  {
    if rs == [] then [] else [p] + Starts(rs[1..], p + |Encode(rs[0])|)
  }

  // The k-th record starts where the encoding of the earlier ones ends.
  lemma {:induction false} StartsAreOffsets(rs: seq<LocalFile>, p: nat, k: nat)
    requires k < |rs|
    ensures Starts(rs, p)[k] == p + |EncodeAll(rs[..k])|
  {
    hide Encode;
    if k == 0 {
    } else {
      StartsAreOffsets(rs[1..], p + |Encode(rs[0])|, k - 1);
      assert rs[..k][1..] == rs[1..][..k - 1];
    }
  }

  lemma {:induction false} SurveyFindsAll(d: seq<Byte>, p: nat, rs: seq<LocalFile>, tail: seq<Byte>)
    requires (forall r :: r in rs ==> Encodable(r)) && NotALocalHeader(tail)
    requires p <= |d| && d[p..] == EncodeAll(rs) + tail
    ensures SurveyFrom(d, p) == Survey(Starts(rs, p), p + |EncodeAll(rs)|, NoRecord)
    decreases |rs|
  {
    hide Encode, Scan, R32;
    if rs == [] {
      assert d[p..] == tail;
      TailIsNoRecord(d, p);
    } else {
      var e, rest := Encode(rs[0]), EncodeAll(rs[1..]);
      assert d[p..] == e + (rest + tail);
      assert d[p..][..|e|] == e;
      EncodedRecordScans(d, p, rs[0]);
      assert d[p + |e|..] == d[p..][|e|..];
      SurveyFindsAll(d, p + |e|, rs[1..], tail);
    }
  }

  lemma TailIsNoRecord(d: seq<Byte>, p: nat)
    requires p <= |d| && NotALocalHeader(d[p..])
    ensures Scan(d, p) == NoRecord
  {
    if p + SIZEZIPLOCALHEADER <= |d| {
      assert d[p..][0..4] == d[p..p + 4];
      ReadSlice(d, p, d[p..], 0, 4, 0);
    }
  }

  lemma {:induction false} RecordStands(d: seq<Byte>, p: nat, rs: seq<LocalFile>, k: nat)
    requires k < |rs| && At(d, p, EncodeAll(rs))
    ensures At(d, Starts(rs, p)[k], Encode(rs[k]))
    decreases |rs|
  {
    hide Encode, At;
    var e := Encode(rs[0]);
    AtSplits(d, p, e, EncodeAll(rs[1..]));
    if k == 0 {
    } else {
      RecordStands(d, p + |e|, rs[1..], k - 1);
    }
  }

  // The directory unzRepair writes for them
  function DirectoryFor(rs: seq<LocalFile>, p: nat): seq<Byte>
  {
    if rs == [] then []
    else CentralHeader(FieldsOf(rs[0]), p) + (rs[0].name + rs[0].extra) + DirectoryFor(rs[1..], p + |Encode(rs[0])|)
  }

  function TotalData(rs: seq<LocalFile>): nat
  {
    if rs == [] then 0 else |rs[0].data| + TotalData(rs[1..])
  }

  lemma {:induction false} DirectoryIsFor(d: seq<Byte>, p: nat, rs: seq<LocalFile>)
    requires (forall r :: r in rs ==> Encodable(r)) && At(d, p, EncodeAll(rs)) && AllRecords(d, Starts(rs, p))
    ensures CentralDirectory(d, Starts(rs, p)) == DirectoryFor(rs, p) && DataBytes(d, Starts(rs, p)) == TotalData(rs)
    decreases |rs|
  {
    hide Encode, At, CentralHeader, Scan, FieldsAt, NameAndExtra, RecordData;
    if rs == [] {
    } else {
      var e := Encode(rs[0]);
      AtSplits(d, p, e, EncodeAll(rs[1..]));
      EncodedRecordScans(d, p, rs[0]);
      assert Starts(rs, p)[1..] == Starts(rs[1..], p + |e|);
      DirectoryIsFor(d, p + |e|, rs[1..]);
    }
  }

  // ---------- the whole way ----------

  ghost predicate Recoverable(rs: seq<LocalFile>, tail: seq<Byte>)
  {
    (forall r :: r in rs ==> Encodable(r)) && NotALocalHeader(tail)
  }

  function RepairedFile(rs: seq<LocalFile>): seq<Byte>
  {
    var all, cd := EncodeAll(rs), DirectoryFor(rs, 0);
    all + cd + EndRecord(|rs|, |cd|, |all|)
  }

  // unzRepair keeps the records, drops what follows them, and writes their directory.
  lemma RepairOfRecords(rs: seq<LocalFile>, tail: seq<Byte>)
    requires Recoverable(rs, tail)
    ensures SurveyFrom(EncodeAll(rs) + tail, 0) == Survey(Starts(rs, 0), |EncodeAll(rs)|, NoRecord)
    ensures Repair(EncodeAll(rs) + tail) == Repaired(RepairedFile(rs), |rs|, TotalData(rs))
  {
    hide EndRecord, DirectoryFor, EncodeAll, CentralDirectory, SurveyFrom, TotalData, DataBytes, Starts;
    var all := EncodeAll(rs);
    var d := all + tail;
    assert d[0..] == d;
    SurveyFindsAll(d, 0, rs, tail);
    assert d[..|all|] == d[0..0 + |all|] == all;
    DirectoryIsFor(d, 0, rs);
  }

  lemma SurveySteps(d: seq<Byte>, p: nat)
    ensures SurveyFrom(d, p).stop == if Scan(d, p).Record? then SurveyFrom(d, Scan(d, p).next).stop else Scan(d, p)
  {
    hide Scan;
  }

  lemma FirstThenRest(d: seq<Byte>, p: nat, e: seq<Byte>, rest: seq<Byte>)
    requires p <= |d| && d[p..] == e + rest
    ensures At(d, p, e) && p + |e| <= |d| && d[p + |e|..] == rest
  {
    assert d[p..p + |e|] == d[p..][..|e|] && d[p + |e|..] == d[p..][|e|..];
  }

  lemma RecordsCons(rs: seq<LocalFile>, tail: seq<Byte>)
    requires rs != []
    ensures EncodeAll(rs) + tail == Encode(rs[0]) + (EncodeAll(rs[1..]) + tail)
    ensures |EncodeAll(rs)| == |Encode(rs[0])| + |EncodeAll(rs[1..])|
  {
    hide Encode;
  }

  // The loop stops behind the records for the reason that Scan gives there.
  lemma {:induction false} SurveyStops(d: seq<Byte>, p: nat, rs: seq<LocalFile>, tail: seq<Byte>, end: nat)
    requires (forall r :: r in rs ==> Encodable(r)) && p <= |d| && d[p..] == EncodeAll(rs) + tail
    requires end == p + |EncodeAll(rs)| && !Scan(d, end).Record?
    ensures SurveyFrom(d, p).stop == Scan(d, end)
    decreases |rs|
  {
    hide Encode, Scan, SurveyFrom, Encodable, FieldsAt, At, LocalName, LocalBody, NameAndExtra, RecordData;
    SurveySteps(d, p);
    if rs == [] {
    } else {
      hide EncodeAll;
      RecordsCons(rs, tail);
      FirstThenRest(d, p, Encode(rs[0]), EncodeAll(rs[1..]) + tail);
      EncodedRecordScans(d, p, rs[0]);
      SurveyStops(d, p + |Encode(rs[0])|, rs[1..], tail, end);
    }
  }

  lemma CutRecordScans(d: seq<Byte>, p: nat, r: LocalFile, n: nat)
    requires Encodable(r) && 30 <= n < |Encode(r)| && p <= |d| && d[p..] == Encode(r)[..n]
    ensures Scan(d, p) == Broken(-1)
  {
    hide LocalHeader, FieldsAt, R32;
    var h := LocalHeader(FieldsOf(r));
    assert Encode(r) == h + (r.name + r.extra + r.data);
    assert d[p..p + 30] == d[p..][..30] == Encode(r)[..n][..30] == h;
    LocalHeaderReads(d, p, FieldsOf(r));
  }

  // A last record that is cut anywhere behind its header makes unzRepair fail, however many whole
  // records stand in front of it.
  lemma CutRecordFails(rs: seq<LocalFile>, r: LocalFile, n: nat)
    requires (forall x :: x in rs ==> Encodable(x)) && Encodable(r) && 30 <= n < |Encode(r)|
    ensures Repair(EncodeAll(rs) + Encode(r)[..n]) == Failed(-1)
  {
    hide Encode, EncodeAll, Scan, SurveyFrom, CentralDirectory, EndRecord;
    var d := EncodeAll(rs) + Encode(r)[..n];
    assert d[0..] == d && d[|EncodeAll(rs)|..] == Encode(r)[..n];
    CutRecordScans(d, |EncodeAll(rs)|, r, n);
    SurveyStops(d, 0, rs, Encode(r)[..n], |EncodeAll(rs)|);
  }

  // So does a header without a name, with another code.
  lemma NamelessRecordFails(rs: seq<LocalFile>, f: LocalFields, rest: seq<Byte>)
    requires (forall x :: x in rs ==> Encodable(x)) && InRange(f) && f.nameSize == 0
    ensures Repair(EncodeAll(rs) + (LocalHeader(f) + rest)) == Failed(-2)
  {
    hide Encode, EncodeAll, LocalHeader, SurveyFrom, CentralDirectory, EndRecord, R32, FieldsAt;
    var d, p := EncodeAll(rs) + (LocalHeader(f) + rest), |EncodeAll(rs)|;
    assert d[0..] == d && d[p..p + 30] == LocalHeader(f);
    LocalHeaderReads(d, p, f);
    SurveyStops(d, 0, rs, LocalHeader(f) + rest, p);
  }

  // The repaired file is of usable size, and neither its end record nor any of its bytes happen
  // to look like another end record or a Zip64 locator; sizes and offsets are not all ones.
  ghost predicate Unambiguous(rs: seq<LocalFile>, ulongMax: nat)
  {
    var out := RepairedFile(rs);
    && rs != [] && |out| < TWO31 && SearchCentralDir64(out) == 0
    && PlainEndRecord(EndRecord(|rs|, |DirectoryFor(rs, 0)|, |EncodeAll(rs)|))
    && forall k :: 0 <= k < |rs| ==> PlainFields(EntryFor(FieldsOf(rs[k]), Starts(rs, 0)[k]), ulongMax)
  }

  lemma RecordOf(rs: seq<LocalFile>, tail: seq<Byte>, k: nat)
    requires Recoverable(rs, tail) && k < |rs|
    ensures var d, p := EncodeAll(rs) + tail, Starts(rs, 0)[k];
            && Scan(d, p) == Record(p + |Encode(rs[k])|) && FieldsAt(d, p) == FieldsOf(rs[k])
            && LocalName(d, p) == rs[k].name && LocalBody(d, p) == rs[k].data
  {
    hide Encode, EncodeAll, Starts, Scan, FieldsAt;
    var all := EncodeAll(rs);
    var d := all + tail;
    assert d[0..0 + |all|] == all;
    RecordStands(d, 0, rs, k);
    EncodedRecordScans(d, Starts(rs, 0)[k], rs[k]);
  }

  lemma RecoverableIsOpenable(rs: seq<LocalFile>, tail: seq<Byte>, ulongMax: nat)
    requires Recoverable(rs, tail) && Unambiguous(rs, ulongMax)
    ensures Openable(EncodeAll(rs) + tail, ulongMax)
  {
    hide Encode, EncodeAll, EndRecord, Scan, FieldsAt, SurveyFrom, CentralDirectory, DirectoryFor, Starts, EntryFor,
        SearchCentralDir64, PlainEndRecord, PlainFields;
    var all := EncodeAll(rs);
    var d := all + tail;
    RepairOfRecords(rs, tail);
    assert d[0..0 + |all|] == all;
    DirectoryIsFor(d, 0, rs);
    forall k | 0 <= k < |rs| ensures PlainFields(EntryFor(FieldsAt(d, Starts(rs, 0)[k]), Starts(rs, 0)[k]), ulongMax) {
      RecordOf(rs, tail, k);
    }
  }

  // The k-th entry of the directory describes r, stored at start.
  ghost predicate Lists(dir: Directory, k: nat, r: LocalFile, start: nat)
  {
    && Decodes(dir, k)
    && CursorAt(dir, k).entry == EntryFor(FieldsOf(r), start)
    && dir.nameAt(EntryPos(dir, k)) == Info(EntryFor(FieldsOf(r), start), r.name, [], [])
  }

  // Files written as local records, anything after them, repaired and opened: the directory
  // holds exactly those files, in order, with all they were recorded with.
  lemma FilesSurviveRepair(rs: seq<LocalFile>, tail: seq<Byte>, ulongMax: nat)
    requires Recoverable(rs, tail) && Unambiguous(rs, ulongMax)
    ensures Repair(EncodeAll(rs) + tail) == Repaired(RepairedFile(rs), |rs|, TotalData(rs))
    ensures var o := OpenArchive(RepairedFile(rs), ulongMax);
            && o.Some? && o.value.numberEntry == Min(|rs|, 0xffff) && o.value.byteBefore == 0
            && Enumerates(DirectoryOf(o.value), |rs|) && (|rs| < 0xffff ==> WellFormed(DirectoryOf(o.value)))
            && forall k: nat :: k < |rs| ==> Lists(DirectoryOf(o.value), k, rs[k], |EncodeAll(rs[..k])|)
  {
    hide Encode, EncodeAll, EndRecord, Scan, FieldsAt, SurveyFrom, CentralDirectory, DirectoryFor, Starts, EntryFor,
        Openable, OpenArchive, RepairedFile, LocalName, DirectoryOf, EntryPos, Decodes, WellFormed, TotalData,
        Recoverable, Unambiguous, Enumerates;
    var d := EncodeAll(rs) + tail;
    RepairOfRecords(rs, tail);
    RecoverableIsOpenable(rs, tail, ulongMax);
    RepairThenOpen(d, ulongMax);
    forall k: nat | k < |rs| ensures Lists(DirectoryOf(RebuiltArchive(d, ulongMax)), k, rs[k], |EncodeAll(rs[..k])|) {
      RecordOf(rs, tail, k);
      StartsAreOffsets(rs, 0, k);
    }
  }

  // Each of them opens exactly if its method is known, and a stored one reads back its data.
  lemma ContentsSurviveRepair(rs: seq<LocalFile>, tail: seq<Byte>, k: nat, step: CrcStep)
    requires Recoverable(rs, tail) && k < |rs|
    ensures var start, f, out := |EncodeAll(rs[..k])|, FieldsOf(rs[k]), RepairedFile(rs);
            && (Coherent(out, start, EntryFor(f, start).info) <==>
                f.method_ == 0 || f.method_ == Z_DEFLATED || f.method_ == Z_BZIP2ED)
            && LocalVarSize(out, start) == f.nameSize + f.extraSize
            && (f.method_ == 0 && f.compressed == f.uncompressed ==>
                  Handed(out, 0, OpenedState(EntryFor(f, start), f.nameSize + f.extraSize, false, step), rs[k].data,
                      0, f.crc, step))
  {
    hide Encode, EncodeAll, EndRecord, Scan, FieldsAt, SurveyFrom, CentralDirectory, DirectoryFor, Starts, EntryFor,
        RepairedFile, LocalBody, LocalVarSize, Coherent, Handed, OpenedState, LocalName, TotalData, Repair;
    var d := EncodeAll(rs) + tail;
    RepairOfRecords(rs, tail);
    RecordOf(rs, tail, k);
    StartsAreOffsets(rs, 0, k);
    RebuiltEntryIsCoherent(d, k);
    if FieldsOf(rs[k]).method_ == 0 && FieldsOf(rs[k]).compressed == FieldsOf(rs[k]).uncompressed {
      assert Encodable(rs[k]);
      RebuiltEntryReads(d, k, step);
    }
  }

  // ---------- the hypotheses can be met ----------

  // An archive without a byte 7 holds no Zip64 locator.
  lemma NoSevenNoLocator(d: seq<Byte>)
    requires 7 !in d
    ensures SearchCentralDir64(d) == 0
  {
    hide LastSig;
    LastSigIsTheLast(d, 6, 7, 0);
  }

  // An empty file with the name "a", alone in its archive
  const ONE_FILE := LocalFile(20, 0, 0, 0, 0, 0, 0, [97], [], [])

  lemma OneHeader()
    ensures 7 !in CentralHeader(FieldsOf(ONE_FILE), 0)
  {
    assert W32(CENTRAL_MAGIC) == [0x50, 0x4b, 1, 2];
    assert W16(20) == [20, 0] && W16(0) == [0, 0] && W16(1) == [1, 0];
    assert W32(0) == [0, 0, 0, 0];
  }

  lemma OneRecord()
    ensures 7 !in Encode(ONE_FILE) && |Encode(ONE_FILE)| == 31
  {
    assert W32(LOCAL_MAGIC) == [0x50, 0x4b, 3, 4];
    assert W16(20) == [20, 0] && W16(0) == [0, 0] && W16(1) == [1, 0];
    assert W32(0) == [0, 0, 0, 0];
  }

  lemma OneEndRecord()
    ensures 7 !in EndRecord(1, 47, 31) && PlainEndRecord(EndRecord(1, 47, 31))
  {
    assert W32(END_MAGIC) == [0x50, 0x4b, 5, 6];
    assert W16(0) == [0, 0] && W16(1) == [1, 0] && W32(47) == [47, 0, 0, 0] && W32(31) == [31, 0, 0, 0];
  }

  lemma OneOfOne(r: LocalFile)
    ensures EncodeAll([r]) == Encode(r) && DirectoryFor([r], 0) == CentralHeader(FieldsOf(r), 0) + (r.name + r.extra)
  {
    hide Encode, CentralHeader;
    assert [r][1..] == [];
    assert EncodeAll([r]) == Encode(r) + [];
    assert DirectoryFor([r], 0) == CentralHeader(FieldsOf(r), 0) + (r.name + r.extra) + [];
  }

  lemma OneFileQualifies(tail: seq<Byte>, ulongMax: nat)
    requires NotALocalHeader(tail) && ulongMax >= TWO32 - 1
    ensures Recoverable([ONE_FILE], tail) && Unambiguous([ONE_FILE], ulongMax)
  {
    hide Encode, EndRecord, CentralHeader, W16, W32, SearchCentralDir64, PlainEndRecord;
    var rs := [ONE_FILE];
    assert rs[1..] == [];
    OneRecord();
    OneHeader();
    OneEndRecord();
    OneOfOne(ONE_FILE);
    var all, cd := EncodeAll(rs), DirectoryFor(rs, 0);
    assert |cd| == 47;
    assert RepairedFile(rs) == all + cd + EndRecord(1, 47, 31);
    NoSevenNoLocator(RepairedFile(rs));
    assert Starts(rs, 0) == [0];
  }
}
