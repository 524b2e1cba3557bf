// unzip.c: the archive object and its methods, each proved to do what the functions of
// ZipFormat and Directories say.
module Unzip {
  import opened Bytes
  import opened Options
  import opened ByteStreams
  import opened SignatureSearch
  import opened Crc
  import opened FileNames
  import opened ZipFormat
  import opened Directories
  import opened StoredRead
  import opened EntryReaders

  // The mutable fields before the first entry is decoded
  const BLANK_ENTRY := Entry(FileInfo(0, 0, 0, 0, 0, 0, 0, 0, 0, 0, 0, 0, 0, 0, TmUnz(0, 0, 0, 0, 0, 0)), 0)
  const BLANK_CURSOR := Cursor(0, 0, false, BLANK_ENTRY)

  // A caller's buffer of n bytes, or null, and the memory it is made of.
  ghost function Request(buf: array?<Byte>, n: nat): Option<nat>
  {
    if buf == null then None else Some(n)
  }

  ghost function Memory(buf: array?<Byte>): seq<Byte>
    reads if buf == null then {} else {buf}
  {
    if buf == null then [] else buf[..]
  }

  // The memory of a buffer after a section of size bytes was read into it: the bytes it could
  // use, a final NUL if the section is text and there is room, and the rest as it was.
  function Filled(was: seq<Byte>, request: Option<nat>, section: seq<Byte>, size: nat, text: bool): seq<Byte>
  {
    if request.None? then was
    else
      var front := section + if text && size < request.value then [0] else [];
      front + if |front| <= |was| then was[|front|..] else []
  }

  // Reading the section over memory in which the NUL has been put
  lemma FilledOver(was: seq<Byte>, mid: seq<Byte>, n: nat, section: seq<Byte>, size: nat, text: bool)
    requires n <= |was| && |section| == Min(n, size)
    requires mid == if text && size < n then was[size := 0] else was
    ensures section + mid[|section|..] == Filled(was, Some(n), section, size, text)
  {
    if text && size < n {
      assert mid[size..] == [0] + was[size + 1..];
    }
  }

  // The NUL goes behind the section that has been read.
  lemma TerminatorFills(was: seq<Byte>, n: nat, section: seq<Byte>, size: nat)
    requires n <= |was| && |section| == Min(n, size)
    ensures var mid := section + was[|section|..];
            (if size < n then mid[size := 0] else mid) == Filled(was, Some(n), section, size, true)
  {
    if size < n {
      assert (section + was[|section|..])[size := 0] == section + [0] + was[size + 1..];
    }
  }

  lemma NothingFilled(size: nat)
    ensures Filled([], None, [], size, true) == []
  {
  }

  // name, then a NUL unless it fills UNZ_MAXFILENAMEINZIP bytes
  ghost predicate NameInMemory(name: seq<Byte>, mem: seq<Byte>)
  {
    name < mem && (|name| >= UNZ_MAXFILENAMEINZIP || mem[|name|] == 0)
  }

  // unz64local_SearchCentralDir64
  method SearchZip64Record(stream: ByteStream) returns (p: nat)
    modifies stream
    ensures p == SearchCentralDir64(stream.data)
  {
    var posFound := SearchBackward(stream, 6, 7);
    if posFound == 0 {
      return 0;
    }
    LastSigIsTheLast(stream.data, 6, 7, posFound);
    var r := stream.SeekSet(posFound);
    var x := stream.GetLong(posFound, 0);
    x := stream.GetLong(posFound, 4);
    if x != 0 {
      return 0;
    }
    var relativeOffset := stream.GetLong64(posFound, 8);
    x := stream.GetLong(posFound, 16);
    if x != 1 {
      return 0;
    }
    r := stream.SeekSet(relativeOffset);
    x := stream.GetLong(relativeOffset, 0);
    if x != 0x06064b50 {
      return 0;
    }
    p := relativeOffset;
  }

  class UnzFile {
    const stream: ByteStream
    const ulongMax: nat
    const crcStep: CrcStep
    const numberEntry: nat
    const sizeComment: nat
    const byteBefore: nat
    const centralPos: nat
    const sizeCentralDir: nat
    const offsetCentralDir: nat
    const isZip64: bool
    var numFile: nat
    var posInCentralDir: nat
    var currentFileOk: bool
    var curFileInfo: FileInfo
    var curOffset: nat
    var fileInZip: FileInZip?

    constructor (stream: ByteStream, a: Archive, crcStep: CrcStep)
      requires a.data == stream.data
      ensures this.stream == stream && Arch() == a && Cur() == BLANK_CURSOR && fileInZip == null
      ensures this.crcStep == crcStep
    {
      this.stream := stream;
      this.crcStep := crcStep;
      ulongMax := a.ulongMax;
      numberEntry, sizeComment, byteBefore := a.numberEntry, a.sizeComment, a.byteBefore;
      centralPos, sizeCentralDir := a.centralPos, a.sizeCentralDir;
      offsetCentralDir, isZip64 := a.offsetCentralDir, a.isZip64;
      numFile, posInCentralDir, currentFileOk := 0, 0, false;
      curFileInfo, curOffset := BLANK_ENTRY.info, 0;
      fileInZip := null;
    }

    // The fixed part of unz64_s
    ghost function Arch(): Archive
    {
      Archive(stream.data, ulongMax, byteBefore, numberEntry, sizeComment,
              centralPos, sizeCentralDir, offsetCentralDir, isZip64)
    }

    // The directory cursor of unz64_s
    ghost function Cur(): Cursor
      reads this
    {
      Cursor(numFile, posInCentralDir, currentFileOk, Entry(curFileInfo, curOffset))
    }

    // The fixed part of a central header, field after field.
    method ReadHeader(ghost p: nat) returns (magic: nat, e: Entry)
      requires stream.pos == p
      modifies stream
      ensures magic == Long(stream.data, p) && e == HeaderAt(stream.data, p)
      ensures stream.pos == NameStart(stream.data, p)
    {
      hide Short, Long, DosDateToTmuDate;
      magic := stream.GetLong(p, 0);
      var version := stream.GetShort(p, 4);
      var needed := stream.GetShort(p, 6);
      var flag := stream.GetShort(p, 8);
      var method_ := stream.GetShort(p, 10);
      var dosDate := stream.GetLong(p, 12);
      var crc := stream.GetLong(p, 16);
      var compressed := stream.GetLong(p, 20);
      var uncompressed := stream.GetLong(p, 24);
      var sizeName, sizeExtra, sizeComment, disk, internal, external, offset := ReadSizes(p);
      e := Entry(FileInfo(version, needed, flag, method_, dosDate, crc, compressed, uncompressed,
                          sizeName, sizeExtra, sizeComment, disk, internal, external, DosDateToTmuDate(dosDate)),
                 offset);
    }

    // The second half of it
    method ReadSizes(ghost p: nat)
      returns (sizeName: nat, sizeExtra: nat, sizeComment: nat, disk: nat, internal: nat, external: nat, offset: nat)
      requires stream.pos == Adv(stream.data, p, 28)
      modifies stream
      ensures var d := stream.data;
              && sizeName == Short(d, p + 28) && sizeExtra == Short(d, p + 30) && sizeComment == Short(d, p + 32)
              && disk == Short(d, p + 34) && internal == Short(d, p + 36)
              && external == Long(d, p + 38) && offset == Long(d, p + 42)
              && stream.pos == Adv(d, p, 46)
    {
      sizeName := stream.GetShort(p, 28);
      sizeExtra := stream.GetShort(p, 30);
      sizeComment := stream.GetShort(p, 32);
      disk := stream.GetShort(p, 34);
      internal := stream.GetShort(p, 36);
      external := stream.GetLong(p, 38);
      offset := stream.GetLong(p, 42);
    }

    // The Zip64 branch of the extra field walk
    method ReadZip64Fields(e0: Entry) returns (e: Entry)
      modifies stream
      ensures (e, stream.pos) == Zip64Fields(stream.data, old(stream.pos), e0, ulongMax)
    {
      var u := ReadIfAllOnes(e0.info.uncompressedSize);
      var c := ReadIfAllOnes(e0.info.compressedSize);
      var o := ReadIfAllOnes(e0.offsetCurfile);
      e := Entry(e0.info.(uncompressedSize := u, compressedSize := c), o);
      if e.info.diskNumStart == ulongMax {
        var x := stream.GetLong(stream.pos, 0);
      }
    }

    method ReadIfAllOnes(field: nat) returns (x: nat)
      modifies stream
      ensures (x, stream.pos) == Widened(stream.data, old(stream.pos), field, ulongMax)
    {
      x := field;
      if field == ulongMax {
        x := stream.GetLong64(stream.pos, 0);
      }
    }

    method WalkExtraField(e0: Entry, size: nat) returns (e: Entry)
      modifies stream
      ensures (e, stream.pos) == ExtraWalk(stream.data, old(stream.pos), 0, size, e0, ulongMax)
    {
      hide Short, Zip64Fields;
      e := e0;
      var acc := 0;
      while acc < size
        invariant ExtraWalk(stream.data, old(stream.pos), 0, size, e0, ulongMax) ==
                  ExtraWalk(stream.data, stream.pos, acc, size, e, ulongMax)
        decreases size - acc
      {
        ghost var p := stream.pos;
        var headerId := stream.GetShort(p, 0);
        var dataSize := stream.GetShort(p, 2);
        if headerId == 1 {
          e := ReadZip64Fields(e);
        } else {
          var r := stream.SeekCur(dataSize);
        }
        acc := acc + 2 + 2 + dataSize;
      }
    }

    // Fill a buffer from the section at the cursor; short is a read that came up short.
    method ReadSection(buf: array<Byte>, n: nat, size: nat, text: bool) returns (read: nat, short: bool)
      requires n <= buf.Length
      modifies stream, buf
      ensures read == Min(n, size) && (short <==> !CanRead(stream.data, old(stream.pos), read))
      ensures !short ==> stream.pos == old(stream.pos) + read
      ensures !short ==>
                buf[..] == Filled(old(buf[..]), Some(n), Section(stream.data, old(stream.pos), read), size, text)
    {
      read := if size < n then size else n;
      ghost var was := buf[..];
      if size < n && text {
        buf[size] := 0;
      }
      ghost var mid := buf[..];
      ghost var section := Delivered(stream.data, stream.pos, read);
      if |section| == read {
        FilledOver(was, mid, n, section, size, text);
      }
      short := false;
      if size > 0 && n > 0 {
        var got := stream.ReadInto(buf, 0, read);
        short := got != read;
      }
    }

    // Seek bookkeeping: the cursor plus lSeek is where the section starts, and afterwards where
    // the next one starts. A null buffer moves nothing.
    method FillSection(buf: array?<Byte>, n: nat, size: nat, text: bool, lSeek0: int) returns (lSeek: int, short: bool)
      requires buf != null ==> n <= buf.Length
      requires stream.pos + lSeek0 >= 0
      modifies stream, buf
      ensures short <==> !CanRead(stream.data, old(stream.pos) + lSeek0, Wanted(Request(buf, n), size))
      ensures !short ==>
                && Memory(buf)
                   == Filled(old(Memory(buf)), Request(buf, n),
                             Section(stream.data, old(stream.pos) + lSeek0, Wanted(Request(buf, n), size)), size, text)
                && stream.pos + lSeek == old(stream.pos) + lSeek0 + size
    {
      lSeek, short := lSeek0, false;
      if buf != null {
        SkipTo(lSeek);
        var read;
        read, short := ReadSection(buf, n, size, text);
        lSeek := size - read;
      } else {
        lSeek := lSeek + size;
      }
    }

    method SkipTo(lSeek: int)
      requires stream.pos + lSeek >= 0
      modifies stream
      ensures stream.pos == old(stream.pos) + lSeek
    {
      if lSeek != 0 {
        var r := stream.SeekCur(lSeek);
      }
    }

    // The three buffers are different memory.
    ghost predicate Separate(name: array?<Byte>, nName: nat, extra: array?<Byte>, nExtra: nat, comment: array?<Byte>,
            nComment: nat)
    {
      && (name != null ==> nName <= name.Length && name != extra && name != comment)
      && (extra != null ==> nExtra <= extra.Length && extra != comment)
      && (comment != null ==> nComment <= comment.Length)
    }

    // The sections behind the fixed part e0, which ends at the cursor.
    method FillSections(e0: Entry, name: array?<Byte>, nName: nat, extra: array?<Byte>, nExtra: nat,
            comment: array?<Byte>, nComment: nat) returns (err: int, e: Entry)
      requires Separate(name, nName, extra, nExtra, comment, nComment)
      modifies stream, name, extra, comment
      ensures match Sections(stream.data, old(stream.pos), e0, ulongMax,
                             Request(name, nName), Request(extra, nExtra), Request(comment, nComment))
              case NoInfo(x) => err == x
              case Info(f, n, x, c) =>
                && err == UNZ_OK && e == f
                && Memory(name) == Filled(old(Memory(name)), Request(name, nName), n, e0.info.sizeFilename, true)
                && Memory(extra) == Filled(old(Memory(extra)), Request(extra, nExtra), x, e0.info.sizeFileExtra, false)
                && Memory(comment)
                   == Filled(old(Memory(comment)), Request(comment, nComment), c, e0.info.sizeFileComment, true)
    {
      hide ExtraWalk, Filled, CanRead, Section, Wanted;
      err, e := UNZ_ERRNO, e0;
      ghost var d, q, x := stream.data, stream.pos, stream.pos + e0.info.sizeFilename;
      ghost var c := ExtraWalk(d, x, 0, e0.info.sizeFileExtra, e0, ulongMax).1;
      ghost var all := Sections(d, q, e0, ulongMax,
                                Request(name, nName), Request(extra, nExtra), Request(comment, nComment));
      var lSeek, short := FillSection(name, nName, e0.info.sizeFilename, true, 0);
      if short {
        assert all == NoInfo(UNZ_ERRNO);
        return;
      }
      assert stream.pos + lSeek == x;
      e, lSeek, short := FillExtra(e0, extra, nExtra, lSeek);
      if short {
        assert all == NoInfo(UNZ_ERRNO);
        return;
      }
      assert stream.pos + lSeek == c;
      lSeek, short := FillSection(comment, nComment, e0.info.sizeFileComment, true, lSeek);
      err := if short then UNZ_ERRNO else UNZ_OK;
      assert short ==> all == NoInfo(UNZ_ERRNO);
    }

    // The extra field: copied to the caller's buffer, then walked from its start.
    method FillExtra(e0: Entry, extra: array?<Byte>, nExtra: nat, lSeek0: int)
      returns (e: Entry, lSeek: int, short: bool)
      requires extra != null ==> nExtra <= extra.Length
      requires stream.pos + lSeek0 >= 0
      modifies stream, extra
      ensures var x, n := old(stream.pos) + lSeek0, Wanted(Request(extra, nExtra), e0.info.sizeFileExtra);
              && (short <==> !CanRead(stream.data, x, n))
              && (!short ==>
                    && Memory(extra) == Filled(old(Memory(extra)), Request(extra, nExtra),
                                               Section(stream.data, x, n), e0.info.sizeFileExtra, false)
                    && (e, stream.pos + lSeek) == ExtraWalk(stream.data, x, 0, e0.info.sizeFileExtra, e0, ulongMax))
    {
      e := e0;
      lSeek, short := FillSection(extra, nExtra, e0.info.sizeFileExtra, false, lSeek0);
      if !short && e0.info.sizeFileExtra != 0 {
        SkipTo(lSeek - e0.info.sizeFileExtra);
        lSeek := 0;
        e := WalkExtraField(e, e0.info.sizeFileExtra);
      }
    }

    // unz64local_GetCurrentFileInfoInternal. On success every buffer holds the right prefix of
    // its own section and nothing else of it has changed.
    method GetCurrentFileInfoInternal(name: array?<Byte>, nName: nat, extra: array?<Byte>, nExtra: nat,
            comment: array?<Byte>, nComment: nat) returns (err: int, e: Entry)
      requires Separate(name, nName, extra, nExtra, comment, nComment)
      modifies stream, name, extra, comment
      ensures match GetInfo(stream.data, posInCentralDir + byteBefore, ulongMax,
                            Request(name, nName), Request(extra, nExtra), Request(comment, nComment))
              case NoInfo(x) => err == x
              case Info(f, n, x, c) =>
                && err == UNZ_OK && e == f
                && Memory(name) == Filled(old(Memory(name)), Request(name, nName), n, f.info.sizeFilename, true)
                && Memory(extra) == Filled(old(Memory(extra)), Request(extra, nExtra), x, f.info.sizeFileExtra, false)
                && Memory(comment)
                   == Filled(old(Memory(comment)), Request(comment, nComment), c, f.info.sizeFileComment, true)
    {
      hide ExtraWalk, Filled, HeaderAt;
      ghost var p := posInCentralDir + byteBefore;
      var r := stream.SeekSet(posInCentralDir + byteBefore);
      var magic;
      magic, e := ReadHeader(p);
      if magic != CENTRAL_MAGIC {
        return UNZ_BADZIPFILE, e;
      }
      SectionsKeepSizes(stream.data, stream.pos, e, ulongMax,
                        Request(name, nName), Request(extra, nExtra), Request(comment, nComment));
      err, e := FillSections(e, name, nName, extra, nExtra, comment, nComment);
    }

    ghost function Dir(): Directory
    {
      DirectoryOf(Arch())
    }

    // Decode the entry under the cursor, as first, next and go-to-position all do in the end.
    method ReloadCurrent() returns (err: int)
      modifies this, stream
      ensures (err, Cur()) == Reload(Dir(), old(Cur())) && fileInZip == old(fileInZip)
    {
      ghost var d, p := stream.data, posInCentralDir + byteBefore;
      NullBuffersDecode(d, p, ulongMax);
      var e;
      err, e := GetCurrentFileInfoInternal(null, 0, null, 0, null, 0);
      assert Dir().entryAt(posInCentralDir) == GetEntry(d, p, ulongMax);
      if err == UNZ_OK {
        curFileInfo, curOffset := e.info, e.offsetCurfile;
      }
      currentFileOk := err == UNZ_OK;
    }

    method GoToFirstFile() returns (err: int)
      modifies this, stream
      ensures (err, Cur()) == GoToFirst(Dir(), old(Cur())) && fileInZip == old(fileInZip)
    {
      posInCentralDir := offsetCentralDir;
      numFile := 0;
      err := ReloadCurrent();
    }

    method GoToNextFile() returns (err: int)
      modifies this, stream
      ensures (err, Cur()) == GoToNext(Dir(), old(Cur())) && fileInZip == old(fileInZip)
    {
      if !currentFileOk {
        return UNZ_END_OF_LIST_OF_FILE;
      }
      if numberEntry != 0xffff {
        if numFile + 1 == numberEntry {
          return UNZ_END_OF_LIST_OF_FILE;
        }
      }
      posInCentralDir := posInCentralDir + SIZECENTRALDIRITEM + curFileInfo.sizeFilename + curFileInfo.sizeFileExtra
      + curFileInfo.sizeFileComment;
      numFile := numFile + 1;
      err := ReloadCurrent();
    }

    method GetFilePos64() returns (err: int, p: FilePos)
      ensures err == (if currentFileOk then UNZ_OK else UNZ_END_OF_LIST_OF_FILE)
      ensures err == UNZ_OK ==> p == FilePos(Cur().pos, Cur().numFile)
    {
      p := FilePos(posInCentralDir, numFile);
      if !currentFileOk {
        return UNZ_END_OF_LIST_OF_FILE, p;
      }
      err := UNZ_OK;
    }

    method GoToFilePos64(p: FilePos) returns (err: int)
      modifies this, stream
      ensures (err, Cur()) == GoToFilePos(Dir(), old(Cur()), p) && fileInZip == old(fileInZip)
    {
      posInCentralDir := p.posInZipDirectory;
      numFile := p.numOfFile;
      err := ReloadCurrent();
    }

    // The current name in memory: a name of UNZ_MAXFILENAMEINZIP bytes or more has no terminator.
    method ReadCurrentName() returns (err: int, mem: seq<Byte>)
      modifies stream
      ensures match Dir().nameAt(posInCentralDir)
              case NoInfo(x) => err == x != UNZ_OK
              case Info(_, name, _, _) => err == UNZ_OK && NameInMemory(name, mem)
    {
      hide GetInfo;
      ghost var d, p := stream.data, posInCentralDir + byteBefore;
      NameLength(d, p, ulongMax, UNZ_MAXFILENAMEINZIP);
      assert Dir().nameAt(posInCentralDir) == GetInfo(d, p, ulongMax, Some(UNZ_MAXFILENAMEINZIP), None, None);
      var szCurrentFileName := new Byte[UNZ_MAXFILENAMEINZIP + 1];
      ghost var was := szCurrentFileName[..];
      var e;
      err, e := GetCurrentFileInfoInternal(szCurrentFileName, UNZ_MAXFILENAMEINZIP, null, 0, null, 0);
      mem := szCurrentFileName[..];
    }

    // The current name against wanted
    method CurrentNameMatches(wanted: seq<Byte>, iCaseSensitivity: int) returns (err: int, found: bool)
      requires |wanted| < UNZ_MAXFILENAMEINZIP && 0 !in wanted
      modifies stream
      ensures match Dir().nameAt(posInCentralDir)
              case NoInfo(x) => err == x != UNZ_OK
              case Info(_, name, _, _) => err == UNZ_OK && found == NameMatches(name, wanted, iCaseSensitivity)
    {
      found := false;
      ghost var info := Dir().nameAt(posInCentralDir);
      var mem;
      err, mem := ReadCurrentName();
      if err == UNZ_OK {
        assert mem == info.name + mem[|info.name|..];
        TerminatorIsNotNeeded(info.name, mem[|info.name|..], wanted, Caseless(iCaseSensitivity));
        var r := StringFileNameCompare(mem, wanted + [0], iCaseSensitivity);
        found := r == 0;
      }
    }

    // unzLocateFile; wanted is the C string without its terminator.
    method LocateFile(wanted: seq<Byte>, iCaseSensitivity: int) returns (err: int)
      requires 0 !in wanted
      modifies this, stream
      ensures EndsBy(Dir(), |stream.data|)
      ensures (err, Cur()) == Locate(Dir(), |stream.data|, old(Cur()), wanted, iCaseSensitivity)
      ensures fileInZip == old(fileInZip)
    {
      DirectoriesEnd(Arch());
      ghost var limit, start := |stream.data|, Cur();
      if |wanted| >= UNZ_MAXFILENAMEINZIP {
        return UNZ_PARAMERROR;
      }
      if !currentFileOk {
        return UNZ_END_OF_LIST_OF_FILE;
      }
      var numFileSaved, posSaved, infoSaved, offsetSaved := numFile, posInCentralDir, curFileInfo, curOffset;
      err := GoToFirstFile();
      while err == UNZ_OK
        invariant fileInZip == old(fileInZip)
        invariant LocateScan(Dir(), limit, start, wanted, iCaseSensitivity) ==
                  if err == UNZ_OK then LocateFrom(Dir(), limit, Cur(), wanted, iCaseSensitivity) else (err, Cur())
        decreases err == UNZ_OK, if posInCentralDir < limit then limit - posInCentralDir else 0
      {
        var found;
        err, found := CurrentNameMatches(wanted, iCaseSensitivity);
        if err == UNZ_OK {
          if found {
            return UNZ_OK;
          }
          err := GoToNextFile();
        }
      }
      numFile, posInCentralDir, curFileInfo, curOffset := numFileSaved, posSaved, infoSaved, offsetSaved;
    }

    // unz64local_CheckCurrentFileCoherencyHeader
    method CheckCurrentFileCoherencyHeader()
      returns (err: int, sizeVar: nat, offsetLocalExtra: nat, sizeLocalExtra: nat)
      modifies stream
      ensures var d, p := stream.data, curOffset + byteBefore;
              && err == (if Coherent(d, p, curFileInfo) then UNZ_OK else UNZ_BADZIPFILE)
              && sizeVar == LocalVarSize(d, p)
              && offsetLocalExtra == curOffset + SIZEZIPLOCALHEADER + Short(d, p + 26)
              && sizeLocalExtra == Short(d, p + 28)
    {
      hide Short, Long;
      ghost var p := curOffset + byteBefore;
      err := UNZ_OK;
      var r := stream.SeekSet(curOffset + byteBefore);
      var x := stream.GetLong(p, 0);
      if x != LOCAL_MAGIC {
        err := UNZ_BADZIPFILE;
      }
      x := stream.GetShort(p, 4);
      var flags := stream.GetShort(p, 6);
      x := stream.GetShort(p, 8);
      if err == UNZ_OK && x != curFileInfo.method_ {
        err := UNZ_BADZIPFILE;
      }
      if err == UNZ_OK && curFileInfo.method_ != 0 && curFileInfo.method_ != Z_BZIP2ED
          && curFileInfo.method_ != Z_DEFLATED {
        err := UNZ_BADZIPFILE;
      }
      x := stream.GetLong(p, 10);
      x := stream.GetLong(p, 14);
      if err == UNZ_OK && x != curFileInfo.crc && flags / 8 % 2 == 0 {
        err := UNZ_BADZIPFILE;
      }
      x := stream.GetLong(p, 18);
      if x != 0xFFFFFFFF && err == UNZ_OK && x != curFileInfo.compressedSize && flags / 8 % 2 == 0 {
        err := UNZ_BADZIPFILE;
      }
      x := stream.GetLong(p, 22);
      if x != 0xFFFFFFFF && err == UNZ_OK && x != curFileInfo.uncompressedSize && flags / 8 % 2 == 0 {
        err := UNZ_BADZIPFILE;
      }
      var sizeFilename := stream.GetShort(p, 26);
      if err == UNZ_OK && sizeFilename != curFileInfo.sizeFilename {
        err := UNZ_BADZIPFILE;
      }
      sizeLocalExtra := stream.GetShort(p, 28);
      offsetLocalExtra := curOffset + SIZEZIPLOCALHEADER + sizeFilename;
      sizeVar := sizeFilename + sizeLocalExtra;
    }

    // The opened entry belongs to this archive.
    ghost predicate Linked()
      reads this, fileInZip
    {
      fileInZip != null ==>
        && fileInZip.Valid() && fileInZip.stream == stream && fileInZip.byteBefore == byteBefore
        && fileInZip.crcStep == crcStep
    }

    ghost function Reading(): Option<ReadState>
      reads this, fileInZip, if fileInZip == null then {} else {fileInZip.readBuffer}
      requires Linked()
    {
      if fileInZip == null then None else Some(fileInZip.State())
    }

    // unzOpenCurrentFile3, with NOUNCRYPT defined and without bzip2: a bzip2 entry is read raw.
    method OpenCurrentFile3(raw: bool, withPassword: bool) returns (err: int, method_: nat, level: nat)
      requires Linked()
      modifies this, stream
      ensures Linked() && Cur() == old(Cur())
      ensures withPassword || !currentFileOk ==> err == UNZ_PARAMERROR && fileInZip == old(fileInZip)
      ensures !withPassword && currentFileOk ==>
                var d, p, e := stream.data, curOffset + byteBefore, Entry(curFileInfo, curOffset);
                if !Coherent(d, p, curFileInfo) then err == UNZ_BADZIPFILE && fileInZip == null
                else
                  && err == UNZ_OK && fileInZip != null && fresh(fileInZip) && fresh(fileInZip.readBuffer)
                  && Reading()
                     == Some(OpenedState(e, LocalVarSize(d, p), raw || curFileInfo.method_ == Z_BZIP2ED, crcStep))
                  && fileInZip.method_ == method_ == curFileInfo.method_ && level == Level(curFileInfo.flag)
    {
      hide Coherent, LocalVarSize, Level;
      method_, level := 0, 6;
      if withPassword || !currentFileOk {
        return UNZ_PARAMERROR, method_, level;
      }
      if fileInZip != null {
        err := CloseCurrentFile();
      }
      var sizeVar, offsetLocalExtra, sizeLocalExtra;
      err, sizeVar, offsetLocalExtra, sizeLocalExtra := CheckCurrentFileCoherencyHeader();
      if err != UNZ_OK {
        return UNZ_BADZIPFILE, method_, level;
      }
      method_ := curFileInfo.method_;
      level := Level(curFileInfo.flag);
      var effectiveRaw := raw || curFileInfo.method_ == Z_BZIP2ED;
      fileInZip := new FileInZip(stream, byteBefore, Entry(curFileInfo, curOffset), sizeVar, effectiveRaw, crcStep);
    }

    // unzReadCurrentFile
    method ReadCurrentFile(buf: array<Byte>, len: nat) returns (ret: int)
      requires Linked() && len <= buf.Length
      requires fileInZip != null ==> (fileInZip.method_ == 0 || fileInZip.raw) && buf != fileInZip.readBuffer
      modifies stream, buf, fileInZip, if fileInZip == null then {} else {fileInZip.readBuffer}
      ensures Linked()
      ensures old(Reading()).None? ==> ret == UNZ_PARAMERROR && Reading().None? && buf[..] == old(buf[..])
      ensures old(Reading()).Some? ==>
                var r := Read(stream.data, byteBefore, old(Reading()).value, len);
                && Reading() == Some(r.state) && |r.out| <= len
                && ret == (if r.ok then |r.out| else UNZ_ERRNO)
                && buf[..|r.out|] == r.out && buf[|r.out|..] == old(buf[..])[|r.out|..]
    {
      if fileInZip == null {
        return UNZ_PARAMERROR;
      }
      ret := fileInZip.ReadCurrentFile(buf, len);
    }

    // unztell64 and unzeof
    method Tell() returns (at: int, eof: int)
      requires Linked()
      ensures match Reading()
              case None => at == TWO64 - 1 && eof == UNZ_PARAMERROR
              case Some(s) => at == s.totalOut && eof == if s.restUncompressed == 0 then 1 else 0
    {
      if fileInZip == null {
        return TWO64 - 1, UNZ_PARAMERROR;
      }
      at := fileInZip.totalOut;
      eof := if fileInZip.restReadUncompressed == 0 then 1 else 0;
    }

    // unzCloseCurrentFile
    method CloseCurrentFile() returns (err: int)
      requires Linked()
      modifies this
      ensures Linked() && fileInZip == null && Cur() == old(Cur())
      ensures err == match old(Reading()) case None => UNZ_PARAMERROR case Some(s) => CloseError(s)
    {
      if fileInZip == null {
        return UNZ_PARAMERROR;
      }
      err := fileInZip.CrcError();
      fileInZip := null;
    }

    // unzGetGlobalComment: at most n bytes of what the end record calls the comment
    method GetGlobalComment(buf: array?<Byte>, n: nat) returns (ret: int)
      requires if buf == null then n == 0 else n <= buf.Length
      modifies stream, buf
      ensures var p, w := centralPos + 22, Min(n, sizeComment);
              if CanRead(stream.data, p, w) then
                && ret == w
                && Memory(buf)
                   == Filled(old(Memory(buf)), Request(buf, n), Section(stream.data, p, w), sizeComment, true)
              else ret == UNZ_ERRNO
    {
      hide Filled;
      var readThis := n;
      if readThis > sizeComment {
        readThis := sizeComment;
      }
      var r := stream.SeekSet(centralPos + 22);
      if buf == null {
        NothingFilled(sizeComment);
        return readThis;
      }
      var short := ReadComment(buf, readThis);
      if short {
        return UNZ_ERRNO;
      }
      TerminatorFills(old(buf[..]), n, Section(stream.data, centralPos + 22, readThis), sizeComment);
      if n > sizeComment {
        buf[sizeComment] := 0;
      }
      ret := readThis;
    }

    method ReadComment(buf: array<Byte>, readThis: nat) returns (short: bool)
      requires readThis <= buf.Length
      modifies stream, buf
      ensures short <==> !CanRead(stream.data, old(stream.pos), readThis)
      ensures !short ==> buf[..] == Section(stream.data, old(stream.pos), readThis) + old(buf[..])[readThis..]
    {
      short := false;
      if readThis > 0 {
        buf[0] := 0;
        assert buf[readThis..] == old(buf[..])[readThis..];
        var got := stream.ReadInto(buf, 0, readThis);
        short := got != readThis;
      }
    }
  }

  // unzOpenInternal. Positions are unbounded: in C the sum of a position and the length of the
  // prefix is taken modulo 2^64, which offsets in crafted Zip64 records can exceed.
  method Open(stream: ByteStream, ulongMax: nat, crcStep: CrcStep) returns (file: UnzFile?)
    modifies stream
    ensures match OpenArchive(stream.data, ulongMax)
            case None => file == null
            case Some(a) =>
              && file != null && fresh(file) && file.stream == stream && file.Arch() == a && file.crcStep == crcStep
              && file.Cur() == GoToFirst(DirectoryOf(a), BLANK_CURSOR).1 && file.fileInZip == null
  {
    var record := ReadEndRecord(stream, ulongMax);
    if record.None? {
      return null;
    }
    var archive := new UnzFile(stream, record.value, crcStep);
    var err := archive.GoToFirstFile();
    file := archive;
  }

  method ReadEndRecord(stream: ByteStream, ulongMax: nat) returns (a: Option<Archive>)
    modifies stream
    ensures a == OpenArchive(stream.data, ulongMax)
  {
    hide Short, Long, Long64, LastSig, CheckedArchive, SearchCentralDir64;
    var central := SearchZip64Record(stream);
    if central != 0 {
      var r := stream.SeekSet(central);
      var x := stream.GetLong(central, 0);
      x := stream.GetLong64(central, 4);
      x := stream.GetShort(central, 12);
      x := stream.GetShort(central, 14);
      var disk := stream.GetLong(central, 16);
      var diskWithCD := stream.GetLong(central, 20);
      var number := stream.GetLong64(central, 24);
      var numberCD := stream.GetLong64(central, 32);
      var size := stream.GetLong64(central, 40);
      var offset := stream.GetLong64(central, 48);
      a := CheckedArchive(stream.data, ulongMax, central, disk, diskWithCD, number, numberCD, size, offset, 0, true);
    } else {
      central := SearchBackward(stream, 5, 6);
      if central == 0 {
        return None;
      }
      var r := stream.SeekSet(central);
      var x := stream.GetLong(central, 0);
      var disk := stream.GetShort(central, 4);
      var diskWithCD := stream.GetShort(central, 6);
      var number := stream.GetShort(central, 8);
      var numberCD := stream.GetShort(central, 10);
      var size := stream.GetLong(central, 12);
      var offset := stream.GetLong(central, 16);
      var sizeComment := stream.GetShort(central, 20);
      a := CheckedArchive(stream.data, ulongMax, central, disk, diskWithCD, number, numberCD,
                          size, offset, sizeComment, false);
    }
  }
}
