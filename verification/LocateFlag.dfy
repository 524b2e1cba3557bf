// An archive on which a failed search loses the current file.
module LocateFlags {
  import opened Bytes
  import opened Options
  import opened ByteStreams
  import opened SignatureSearch
  import opened FileNames
  import opened ZipFormat
  import opened Directories
  import opened Mztools
  import opened RepairOpens
  import opened RepairRoundTrip

  // One file named "a", in a directory that announces two
  const FIELDS := LocalFields(20, 0, 0, 0, 0, 0, 0, 0, 1, 0)

  function TwoAnnounced(): seq<Byte>
  {
    CentralHeader(FIELDS, 0) + [97] + EndRecord(2, 47, 0)
  }

  function OpenedArchive(ulongMax: nat): Archive
  {
    Archive(TwoAnnounced(), ulongMax, 0, 2, 0, 47, 47, 0, false)
  }

  lemma NoSeven()
    ensures 7 !in TwoAnnounced() && PlainEndRecord(EndRecord(2, 47, 0)) && SigAt(EndRecord(2, 47, 0), 0, 5, 6)
  {
    assert W32(CENTRAL_MAGIC) == [0x50, 0x4b, 1, 2] && W32(END_MAGIC) == [0x50, 0x4b, 5, 6];
    assert W16(20) == [20, 0] && W16(0) == [0, 0] && W16(1) == [1, 0] && W16(2) == [2, 0];
    assert W32(0) == [0, 0, 0, 0] && W32(47) == [47, 0, 0, 0];
  }

  lemma ItOpens(ulongMax: nat)
    ensures OpenArchive(TwoAnnounced(), ulongMax) == Some(OpenedArchive(ulongMax))
  {
    hide CentralHeader, EndRecord, LastSig, SearchCentralDir64, OpenArchive;
    var d, e := TwoAnnounced(), EndRecord(2, 47, 0);
    NoSeven();
    NoSevenNoLocator(d);
    assert d[47..47 + END_RECORD_SIZE] == e;
    forall q: nat | 47 <= q ensures SigAt(d, q, 5, 6) == SigAt(e, q - 47, 5, 6) {
      SigInBlock(d, 47, END_RECORD_SIZE, q - 47, 5, 6);
    }
    LastSigIsTheLast(d, 5, 6, 47);
    OpensAt(d, ulongMax, 47, 2, 47, 0);
  }

  lemma EntryAndEnd(d: seq<Byte>, h: seq<Byte>, name: seq<Byte>, e: seq<Byte>)
    requires d == h + name + e
    ensures EntryStands(d, 0, h, name) && |h| + |name| + |e| == |d| && d[|h| + |name|..|h| + |name| + |e|] == e
  {
  }

  lemma FirstEntry(d: seq<Byte>, ulongMax: nat)
    requires ulongMax > 0 && EntryStands(d, 0, CentralHeader(FIELDS, 0), [97])
    ensures GetEntry(d, 0, ulongMax) == Some(EntryFor(FIELDS, 0))
    ensures GetInfo(d, 0, ulongMax, Some(UNZ_MAXFILENAMEINZIP), None, None) == Info(EntryFor(FIELDS, 0), [97], [], [])
  {
    hide CentralHeader, GetInfo, EntryAt, HeaderAt, EntryStands, DosDateToTmuDate, Long;
    var name: seq<Byte> := [97];
    assert name[..1] == name;
    WrittenEntryDecodes(d, 0, FIELDS, 0, name, ulongMax);
    WrittenNameReads(d, 0, FIELDS, 0, name, ulongMax);
  }

  lemma NoSecondEntry(d: seq<Byte>, ulongMax: nat)
    requires 47 + END_RECORD_SIZE <= |d| && d[47..47 + END_RECORD_SIZE] == EndRecord(2, 47, 0)
    ensures GetEntry(d, 47, ulongMax) == None
  {
    hide EndRecord, EntryAt, R16, R32, Long;
    EndRecordReads(2, 47, 0);
    FieldInSlice(d, 47, EndRecord(2, 47, 0), 0);
  }

  lemma ItsEntries(ulongMax: nat)
    requires ulongMax > 0
    ensures var dir, e := DirectoryOf(OpenedArchive(ulongMax)), EntryFor(FIELDS, 0);
            && dir.offset == 0 && dir.numberEntry == 2
            && dir.entryAt(0) == Some(e) && dir.nameAt(0) == Info(e, [97], [], []) && dir.entryAt(47) == None
  {
    hide CentralHeader, EndRecord, GetInfo, GetEntry, EntryFor, EntryStands;
    var d := TwoAnnounced();
    EntryAndEnd(d, CentralHeader(FIELDS, 0), [97], EndRecord(2, 47, 0));
    FirstEntry(d, ulongMax);
    NoSecondEntry(d, ulongMax);
  }

  // Searching it for "b" fails and leaves no current file, although there was one before.
  lemma FlagIsLost(ulongMax: nat)
    requires ulongMax > 0
    ensures OpenArchive(TwoAnnounced(), ulongMax) == Some(OpenedArchive(ulongMax))
    ensures var dir := DirectoryOf(OpenedArchive(ulongMax));
            && EndsBy(dir, |TwoAnnounced()|) && Decodes(dir, 0) && GoToFirst(dir, BLANK).1 == CursorAt(dir, 0)
            && Locate(dir, |TwoAnnounced()|, CursorAt(dir, 0), [98], 1)
               == (UNZ_BADZIPFILE, CursorAt(dir, 0).(ok := false))
  {
    hide TwoAnnounced, OpenArchive, NameMatches, DirectoryOf, DosDateToTmuDate;
    ItOpens(ulongMax);
    ItsEntries(ulongMax);
    var dir := DirectoryOf(OpenedArchive(ulongMax));
    DirectoriesEnd(OpenedArchive(ulongMax));
    NamesDiffer();
  }

  const BLANK := Cursor(0, 0, false, EntryFor(FIELDS, 0))

  lemma NamesDiffer()
    ensures !NameMatches([97], [98], 1)
  {
    var name: seq<Byte> := [97];
    assert name[1..] == [] && CString(name) == name;
  }
}
