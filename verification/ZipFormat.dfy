// What unzip.c decodes from the bytes of an archive, as functions of the bytes and a position.
module ZipFormat {
  import opened Bytes
  import opened Options
  import opened ByteStreams
  import opened SignatureSearch

  const CENTRAL_MAGIC := 0x02014b50
  const LOCAL_MAGIC := 0x04034b50
  const END_MAGIC := 0x06054b50
  const SIZECENTRALDIRITEM: nat := 0x2e
  const SIZEZIPLOCALHEADER: nat := 0x1e
  const Z_DEFLATED := 8
  const Z_BZIP2ED := 12

  datatype TmUnz = TmUnz(sec: nat, min: nat, hour: nat, mday: nat, mon: nat, year: nat)

  // unz64local_DosDateToTmuDate; a month of 0 wraps around
  function DosDateToTmuDate(dosDate: nat): TmUnz
  {
    var date := dosDate / TWO16;
    TmUnz(2 * (dosDate % 32), dosDate / 32 % 64, dosDate / 2048 % 32,
          date % 32, (date / 32 % 16 + TWO32 - 1) % TWO32, date / 512 % 128 + 1980)
  }

  datatype FileInfo = FileInfo(
    version: nat, versionNeeded: nat, flag: nat, method_: nat, dosDate: nat, crc: nat,
    compressedSize: nat, uncompressedSize: nat,
    sizeFilename: nat, sizeFileExtra: nat, sizeFileComment: nat,
    diskNumStart: nat, internalFa: nat, externalFa: nat, tmuDate: TmUnz)

  // unz_file_info64 with unz_file_info64_internal
  datatype Entry = Entry(info: FileInfo, offsetCurfile: nat)

  // The fixed part of a central directory header (APPNOTE 4.3.12)
  function HeaderAt(d: seq<Byte>, p: nat): (e: Entry)
    ensures e.info.sizeFilename < TWO16 && e.info.sizeFileExtra < TWO16 && e.info.sizeFileComment < TWO16
  {
    Entry(FileInfo(Short(d, p + 4), Short(d, p + 6), Short(d, p + 8), Short(d, p + 10),
                   Long(d, p + 12), Long(d, p + 16), Long(d, p + 20), Long(d, p + 24),
                   Short(d, p + 28), Short(d, p + 30), Short(d, p + 32),
                   Short(d, p + 34), Short(d, p + 36), Long(d, p + 38),
                   DosDateToTmuDate(Long(d, p + 12))),
          Long(d, p + 42))
  }

  // A field that holds all ones in an unsigned long is replaced by the next eight bytes.
  function Widened(d: seq<Byte>, p: nat, field: nat, ulongMax: nat): (nat, nat)
  {
    if field == ulongMax then (Long64(d, p), Adv(d, p, 8)) else (field, p)
  }

  // A Zip64 block: the cursor moves only over what was read, not over the block.
  function Zip64Fields(d: seq<Byte>, p: nat, e: Entry, ulongMax: nat): (Entry, nat)
  {
    var (u, p1) := Widened(d, p, e.info.uncompressedSize, ulongMax);
    var (c, p2) := Widened(d, p1, e.info.compressedSize, ulongMax);
    var (o, p3) := Widened(d, p2, e.offsetCurfile, ulongMax);
    (Entry(e.info.(uncompressedSize := u, compressedSize := c), o),
     if e.info.diskNumStart == ulongMax then Adv(d, p3, 4) else p3)
  }

  // One block: the entry and the cursor behind it
  function BlockAt(d: seq<Byte>, p: nat, e: Entry, ulongMax: nat): (Entry, nat)
  {
    var body := Adv(d, p, 4);
    if Short(d, p) == 1 then Zip64Fields(d, body, e, ulongMax) else (e, body + Short(d, p + 2))
  }

  // The walk over the extra field: acc bytes of size are accounted for, the cursor is at p.
  function ExtraWalk(d: seq<Byte>, p: nat, acc: nat, size: nat, e: Entry, ulongMax: nat): (Entry, nat)
    decreases size - acc
  {
    if acc >= size then (e, p)
    else
      var (e', p') := BlockAt(d, p, e, ulongMax);
      ExtraWalk(d, p', acc + 4 + Short(d, p + 2), size, e', ulongMax)
  }

  // Sections of the entry at p: the file name, then the extra field, then the comment.
  function NameStart(d: seq<Byte>, p: nat): nat
  {
    Adv(d, p, SIZECENTRALDIRITEM)
  }

  function ExtraStart(d: seq<Byte>, p: nat): nat
  {
    NameStart(d, p) + HeaderAt(d, p).info.sizeFilename
  }

  function AfterExtra(d: seq<Byte>, p: nat, ulongMax: nat): (Entry, nat)
  {
    ExtraWalk(d, ExtraStart(d, p), 0, HeaderAt(d, p).info.sizeFileExtra, HeaderAt(d, p), ulongMax)
  }

  function EntryAt(d: seq<Byte>, p: nat, ulongMax: nat): (e: Entry)
  {
    AfterExtra(d, p, ulongMax).0
  }

  // Bytes put into a buffer for a section of n bytes; None is a null buffer.
  function Wanted(request: Option<nat>, n: nat): (w: nat)
    ensures w <= n
  {
    if request.None? then 0 else Min(request.value, n)
  }

  predicate CanRead(d: seq<Byte>, p: nat, n: nat)
  {
    n == 0 || p + n <= |d|
  }

  function Section(d: seq<Byte>, p: nat, n: nat): (s: seq<Byte>)
    requires CanRead(d, p, n)
    ensures |s| == n
  {
    if n == 0 then [] else d[p..p + n]
  }

  datatype InfoResult =
    | Info(entry: Entry, name: seq<Byte>, extra: seq<Byte>, comment: seq<Byte>)
    | NoInfo(err: int)

  // What is read behind the fixed part h of an entry, which ends at q.
  function Sections(d: seq<Byte>, q: nat, h: Entry, ulongMax: nat, name: Option<nat>, extra: Option<nat>,
          comment: Option<nat>): InfoResult
  {
    var x := q + h.info.sizeFilename;
    var (e, c) := ExtraWalk(d, x, 0, h.info.sizeFileExtra, h, ulongMax);
    var n1, n2 := Wanted(name, h.info.sizeFilename), Wanted(extra, h.info.sizeFileExtra);
    var n3 := Wanted(comment, h.info.sizeFileComment);
    if !CanRead(d, q, n1) || !CanRead(d, x, n2) || !CanRead(d, c, n3) then NoInfo(UNZ_ERRNO)
    else Info(e, Section(d, q, n1), Section(d, x, n2), Section(d, c, n3))
  }

  lemma SectionsKeepSizes(d: seq<Byte>, q: nat, h: Entry, ulongMax: nat, name: Option<nat>, extra: Option<nat>,
          comment: Option<nat>)
    ensures match Sections(d, q, h, ulongMax, name, extra, comment)
            case NoInfo(_) => true
            case Info(e, _, _, _) =>
              && e.info.sizeFilename == h.info.sizeFilename && e.info.sizeFileExtra == h.info.sizeFileExtra
              && e.info.sizeFileComment == h.info.sizeFileComment
  {
    WalkKeepsSizes(d, q + h.info.sizeFilename, 0, h.info.sizeFileExtra, h, ulongMax);
  }

  // unz64local_GetCurrentFileInfoInternal on the entry at stream position p
  function GetInfo(d: seq<Byte>, p: nat, ulongMax: nat, name: Option<nat>, extra: Option<nat>,
          comment: Option<nat>): InfoResult
  {
    if Long(d, p) != CENTRAL_MAGIC then NoInfo(UNZ_BADZIPFILE)
    else Sections(d, NameStart(d, p), HeaderAt(d, p), ulongMax, name, extra, comment)
  }

  lemma NameLength(d: seq<Byte>, p: nat, ulongMax: nat, n: nat)
    ensures match GetInfo(d, p, ulongMax, Some(n), None, None)
            case NoInfo(x) => x != UNZ_OK
            case Info(e, name, _, _) => |name| == Min(n, e.info.sizeFilename)
  {
    SectionsKeepSizes(d, NameStart(d, p), HeaderAt(d, p), ulongMax, Some(n), None, None);
  }

  // With null buffers only the magic can fail.
  function GetEntry(d: seq<Byte>, p: nat, ulongMax: nat): (r: Option<Entry>)
  {
    if Long(d, p) == CENTRAL_MAGIC then Some(EntryAt(d, p, ulongMax)) else None
  }

  lemma NullBuffersDecode(d: seq<Byte>, p: nat, ulongMax: nat)
    ensures GetInfo(d, p, ulongMax, None, None, None) ==
            match GetEntry(d, p, ulongMax)
            case None => NoInfo(UNZ_BADZIPFILE)
            case Some(e) => Info(e, [], [], [])
  {
  }

  lemma {:induction false} WalkKeepsSizes(d: seq<Byte>, p: nat, acc: nat, size: nat, e: Entry, ulongMax: nat)
    ensures var w := ExtraWalk(d, p, acc, size, e, ulongMax).0;
            w.info == e.info.(uncompressedSize := w.info.uncompressedSize, compressedSize := w.info.compressedSize)
    decreases size - acc
  {
    if size <= acc {
    } else {
      var (e', p') := BlockAt(d, p, e, ulongMax);
      WalkKeepsSizes(d, p', acc + 4 + Short(d, p + 2), size, e', ulongMax);
    }
  }

  // ---------- sound extra fields ----------

  // n bytes from q are blocks of id, size and data, with nothing left over
  ghost predicate Blocks(d: seq<Byte>, q: nat, n: int)
    decreases n
  {
    n == 0 || (n >= 4 && 4 + Short(d, q + 2) <= n && Blocks(d, q + 4 + Short(d, q + 2), n - 4 - Short(d, q + 2)))
  }

  ghost predicate NoZip64Block(d: seq<Byte>, q: nat, n: int)
    decreases n
  {
    n <= 0 || (Short(d, q) != 1 && NoZip64Block(d, q + 4 + Short(d, q + 2), n - 4 - Short(d, q + 2)))
  }

  // Without Zip64 blocks the walk decodes nothing, and it ends where the field ends exactly
  // when the field is a row of complete blocks; otherwise it ends too far. (The end record of an
  // archive leaves more than four bytes behind every extra field.)
  lemma {:induction false} WalkEndsWithField(d: seq<Byte>, q: nat, acc: nat, size: nat, e: Entry, ulongMax: nat)
    requires acc <= size && q + (size - acc) + 4 <= |d| && NoZip64Block(d, q, size - acc)
    ensures var w := ExtraWalk(d, q, acc, size, e, ulongMax);
            && w.0 == e
            && (w.1 == q + (size - acc) <==> Blocks(d, q, size - acc))
            && w.1 >= q + (size - acc)
    decreases size - acc
  {
    if size <= acc {
    } else {
      var step := 4 + Short(d, q + 2);
      if acc + step <= size {
        WalkEndsWithField(d, q + step, acc + step, size, e, ulongMax);
      }
    }
  }

  // Bytes of a Zip64 block that are read for the fields of e that are all ones
  function Zip64Needed(e: Entry, ulongMax: nat): nat
  {
    (if e.info.uncompressedSize == ulongMax then 8 else 0) + (if e.info.compressedSize == ulongMax then 8 else 0)
    + (if e.offsetCurfile == ulongMax then 8 else 0) + (if e.info.diskNumStart == ulongMax then 4 else 0)
  }

  // Complete blocks of other kinds are stepped over.
  lemma {:induction false} OtherBlocksPass(d: seq<Byte>, q: nat, b: nat, acc: nat, size: nat, e: Entry, ulongMax: nat)
    requires Blocks(d, q, b) && NoZip64Block(d, q, b) && acc + b <= size && q + b + 4 <= |d|
    ensures ExtraWalk(d, q, acc, size, e, ulongMax) == ExtraWalk(d, q + b, acc + b, size, e, ulongMax)
    decreases b
  {
    if b == 0 {
    } else {
      var step := 4 + Short(d, q + 2);
      OtherBlocksPass(d, q + step, b - step, acc + step, size, e, ulongMax);
    }
  }

  // A Zip64 block is never stepped over: whatever complete blocks stand in front of it and whatever
  // follows, the walk goes on where the fields that it needed end, though it counts all n bytes. If
  // the block is the last one, the walk is at the end of the field exactly if it needed all of them.
  lemma Zip64BlockIsNotSkipped(d: seq<Byte>, q: nat, b: nat, n: nat, size: nat, e: Entry, ulongMax: nat)
    requires Blocks(d, q, b) && NoZip64Block(d, q, b) && b + 4 + n <= size
    requires Short(d, q + b) == 1 && Short(d, q + b + 2) == n && q + b + 4 + Zip64Needed(e, ulongMax) <= |d|
    ensures var walk, end := ExtraWalk(d, q, 0, size, e, ulongMax), q + b + 4 + Zip64Needed(e, ulongMax);
            && walk == ExtraWalk(d, end, b + 4 + n, size, Zip64Fields(d, q + b + 4, e, ulongMax).0, ulongMax)
            && (size == b + 4 + n ==> walk.1 == end && (walk.1 == q + size <==> n == Zip64Needed(e, ulongMax)))
  {
    hide Short, Blocks, NoZip64Block, Zip64Fields;
    OtherBlocksPass(d, q, b, 0, size, e, ulongMax);
    Zip64FieldsAdvance(d, q + b + 4, e, ulongMax);
  }

  lemma Zip64FieldsAdvance(d: seq<Byte>, p: nat, e: Entry, ulongMax: nat)
    requires p + Zip64Needed(e, ulongMax) <= |d|
    ensures Zip64Fields(d, p, e, ulongMax).1 == p + Zip64Needed(e, ulongMax)
  {
    hide Long64;
  }

  // Entries none of whose fields is all ones pass any extra field unchanged.
  predicate PlainFields(e: Entry, ulongMax: nat)
  {
    && e.info.uncompressedSize != ulongMax && e.info.compressedSize != ulongMax
    && e.offsetCurfile != ulongMax
  }

  lemma {:induction false} PlainFieldsPass(d: seq<Byte>, p: nat, acc: nat, size: nat, e: Entry, ulongMax: nat)
    requires PlainFields(e, ulongMax)
    ensures ExtraWalk(d, p, acc, size, e, ulongMax).0 == e
    decreases size - acc
  {
    if size <= acc {
    } else {
      var (e', p') := BlockAt(d, p, e, ulongMax);
      PlainFieldsPass(d, p', acc + 4 + Short(d, p + 2), size, e', ulongMax);
    }
  }

  // Every 32-bit field passes when unsigned long has 64 bits.
  lemma WideLongIgnoresZip64Blocks(d: seq<Byte>, p: nat, ulongMax: nat)
    requires ulongMax >= TWO32
    ensures EntryAt(d, p, ulongMax) == HeaderAt(d, p)
  {
    PlainFieldsPass(d, ExtraStart(d, p), 0, HeaderAt(d, p).info.sizeFileExtra, HeaderAt(d, p), ulongMax);
  }

  // ---------- local headers ----------

  // unz64local_CheckCurrentFileCoherencyHeader accepts: local header at stream position p
  // (APPNOTE 4.3.7) against the directory entry.
  predicate Coherent(d: seq<Byte>, p: nat, info: FileInfo)
  {
    var streamed := Short(d, p + 6) / 8 % 2 == 1;
    && Long(d, p) == LOCAL_MAGIC
    && Short(d, p + 8) == info.method_
    && (info.method_ == 0 || info.method_ == Z_BZIP2ED || info.method_ == Z_DEFLATED)
    && (Long(d, p + 14) == info.crc || streamed)
    && (Long(d, p + 18) == 0xFFFFFFFF || Long(d, p + 18) == info.compressedSize || streamed)
    && (Long(d, p + 22) == 0xFFFFFFFF || Long(d, p + 22) == info.uncompressedSize || streamed)
    && Short(d, p + 26) == info.sizeFilename
  }

  // *piSizeVar: the local name and extra field together
  function LocalVarSize(d: seq<Byte>, p: nat): nat
  {
    Short(d, p + 26) + Short(d, p + 28)
  }

  // The compression level that unzOpenCurrentFile3 derives from bits 1 and 2 of the flag
  function Level(flag: nat): nat
  {
    match flag / 2 % 4
    case 3 => 1
    case 2 => 2
    case 1 => 9
    case _ => 6
  }

  // ---------- the end record ----------

  datatype Archive = Archive(
    data: seq<Byte>, ulongMax: nat, byteBefore: nat, numberEntry: nat, sizeComment: nat,
    centralPos: nat, sizeCentralDir: nat, offsetCentralDir: nat, isZip64: bool)

  // unz64local_SearchCentralDir64
  function SearchCentralDir64(d: seq<Byte>): nat
  {
    var locator := LastSig(d, 6, 7);
    var relativeOffset := Long64(d, locator + 8);
    if locator == 0 || Long(d, locator + 4) != 0 || Long(d, locator + 16) != 1
       || Long(d, relativeOffset) != 0x06064b50
    then 0 else relativeOffset
  }

  // The checks and results of unzOpenInternal once the fields of an end record are known;
  // offset plus size is an unsigned 64-bit sum.
  function CheckedArchive(d: seq<Byte>, ulongMax: nat, centralPos: nat, disk: nat, diskWithCD: nat, number: nat,
          numberCD: nat, size: nat, offset: nat, comment: nat, isZip64: bool): Option<Archive>
  {
    if numberCD != number || diskWithCD != 0 || disk != 0 || centralPos < (offset + size) % TWO64 then None
    else Some(Archive(d, ulongMax, centralPos - (offset + size) % TWO64, number, comment,
                      centralPos, size, offset, isZip64))
  }

  // unzOpenInternal (APPNOTE 4.3.16 for the end record)
  function OpenArchive(d: seq<Byte>, ulongMax: nat): Option<Archive>
  {
    var p64 := SearchCentralDir64(d);
    if p64 != 0 then
      CheckedArchive(d, ulongMax, p64, Long(d, p64 + 16), Long(d, p64 + 20), Long64(d, p64 + 24),
                     Long64(d, p64 + 32), Long64(d, p64 + 40), Long64(d, p64 + 48), 0, true)
    else
      var p := LastSig(d, 5, 6);
      if p == 0 then None
      else
        CheckedArchive(d, ulongMax, p, Short(d, p + 4), Short(d, p + 6), Short(d, p + 8),
                       Short(d, p + 10), Long(d, p + 12), Long(d, p + 16), Short(d, p + 20), false)
  }
}
