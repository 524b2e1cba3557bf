// A directory entry whose comment is read from the wrong place.
module CommentShifts {
  import opened Bytes
  import opened Options
  import opened ByteStreams
  import opened ZipFormat

  // An entry without a name, with a Zip64 block that holds the one byte X, and with the comment c
  function CommentedEntry(): seq<Byte>
  {
    [0x50, 0x4b, 1, 2] + seq(24, _ => 0) + [0, 0, 5, 0, 1, 0] + seq(12, _ => 0) + [1, 0, 1, 0, 'X' as int, 'c' as int]
  }

  lemma HeaderOf(d: seq<Byte>)
    requires d == CommentedEntry()
    ensures Long(d, 0) == CENTRAL_MAGIC && NameStart(d, 0) == 46
    ensures var e := HeaderAt(d, 0);
            && e.info.sizeFilename == 0 && e.info.sizeFileExtra == 5 && e.info.sizeFileComment == 1
            && e.info.uncompressedSize == e.info.compressedSize == e.offsetCurfile == e.info.diskNumStart == 0
    ensures Short(d, 46) == 1 && Short(d, 48) == 1
  {
  }

  // Its comment is read from the Zip64 block, although no field of the entry needs one.
  lemma CommentIsMisread(d: seq<Byte>, ulongMax: nat)
    requires d == CommentedEntry() && ulongMax > 0
    ensures d[51..52] == ['c' as int]
    ensures var r := GetInfo(d, 0, ulongMax, None, None, Some(1));
            r.Info? && r.comment == ['X' as int]
  {
    hide HeaderAt, Short, Long, ExtraWalk, NameStart;
    HeaderOf(d);
    Zip64BlockIsNotSkipped(d, 46, 0, 1, 5, HeaderAt(d, 0), ulongMax);
  }
}
