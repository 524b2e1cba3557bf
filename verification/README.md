# Verified model of the formats and parsers of supercell's bundled code

This project models five pieces of code that the repository carries, and proves properties of
them in Dafny. `dafny verify dfyconfig.toml` checks all of it.

- **The zip reader and the zip repairer** (`unzip.c`, `mztools.c` of minizip). `Bytes`,
  `ByteStreams`, `SignatureSearch`, `FileNames`, `ZipFormat` and `Directories` say what the bytes
  of an archive mean and how its cursor moves; `StoredRead` and `EntryReaders` serve file content
  through the 16 KB buffer; `Unzip` is the reader as a class over a seekable stream; `Sessions`
  and `StoredSessions` are whole runs of its interface; `LocateFlags` and `CommentShifts` are
  files on which a call goes wrong. `EntryOpenings` says which entries open and `EncodedArchives`
  what becomes of archives that are written by APPNOTE; `Mztools` is the repairer. `RepairTwice`,
  `RepairOpens`, `RepairRoundTrip` and `RepairSessions` put the two together: what `unzRepair`
  writes, `unzip.c` opens, enumerates and reads.
- **The stream cipher of `crypt.h`** (`Crypt`, with the bitwise operations in `Bits`).
- **The Thrift codec and the request-reply exchange** (`cassandra_types.cpp`, `Cassandra.cpp`).
  The generated `read` and `write` of every struct have one of few forms; `ThriftCodec` and
  `ThriftProtocol` hold those forms once, driven by the shape of the struct (`ThriftMaps` is
  about its maps), and `CassandraTypes` lists the shapes; `CassandraNumbers` says how they show
  on the wire. A stream is a queue of tokens (`ThriftWire`). `CassandraRpc` is the processor, the
  client and whole runs of calls, and `CassandraReplies` spells the replies out.
- **The BSON walker** (`bson-inl.h`, `bsonobjiterator.h`): sizes and iterator (`BsonLayout`), the
  grammar and its encoding (`BsonDocuments`), the validating printer (`BsonPrint`), lookup and
  merging (`BsonFields`).
- **The dot front end of `xdot.py`**: `DotLexers` and `DotParsers`. `DotPlaces` shows what of a token
  matters, `DotGraphs` says how graphs are written and what they mean, `DotAccepted` that nothing
  else is accepted, and `DotTexts`, with `DotStrings` and two `DotFiles`, writes them as text.

Functions over byte or token sequences are the specification; classes and loops follow the
program's own form and are proved to compute those functions; lemmas prove what the formats and
the interfaces promise. Errors are values: an error code, or an `Outcome` where C++ and Python
throw.

## Where the code is not what one would expect

The model follows the code in each case.

- `UNZ_EOF` equals `UNZ_OK`, so reading a header field behind the end of the file succeeds and
  repeats the last byte (`ByteStreams.CutFieldRepeatsLastByte`).
- A Zip64 extra block is not skipped by its size (`ZipFormat.Zip64BlockIsNotSkipped`), so a comment
  can come out wrong (`CommentShifts.CommentIsMisread`).
- A comment in `unzLocateFile` says that a failure restores the current file. It does not restore
  the flag that says whether there is one: the flag is lost exactly when the search runs into an
  entry that does not decode (`Directories.FailedLocateRestores`), as in the file of
  `LocateFlags.FlagIsLost`.
- The backward search covers 65535 bytes, so an archive with a comment of more than 65513 bytes is
  not found (`EncodedArchives.EndIsFound`).
- A repair that recovers nothing returns success with a file that cannot be opened
  (`RepairOpens.EmptyRepairDoesNotOpen`), as for the empty file (`RepairOpens.EmptyFileDoesNotOpen`).
  `RepairOpens.RepairedOpens` says exactly which repaired files open.
- Reading a struct into an object that is not fresh merges the two (`ThriftCodec.ReadMerges`,
  `CassandraTypes.StaleColumnSurvives`).
- `getFieldDotted` looks for a field with the whole dotted name first, so it is not always descent
  along the path (`BsonFields.DottedNameHidesPath`); `BsonFields.DottedIsDescentExactly` says when
  it is.
- The dot parser raises on every graph with a chain `a -> b -> c`, and accepts exactly the graphs
  without one (`DotGraphs.GraphParses`, `DotAccepted.AcceptsExactlyGraphs`,
  `DotFiles.ChainFileRaises`). On a file with neither an opening brace nor a rejected character it
  never ends (`DotParsers.SkipNeverEnds`, `DotParsers.SkipOnSmallFiles`).

## Model

| member | source | states |
|---|---|---|
| `ByteStreams.ByteStream.GetByte` | dep/linux/zlib/minizip/unzip.c:212-228 | reading one byte at any position: at end of file the call succeeds and keeps the previous value, since UNZ_EOF is UNZ_OK |
| `ByteStreams.ByteStream.GetShort` | dep/linux/zlib/minizip/unzip.c:239-259 | the 16-bit little-endian field at the cursor, with the carried byte when the file cuts it |
| `ByteStreams.ByteStream.GetFour` | dep/linux/zlib/minizip/unzip.c:266-294 | four bytes that share one variable, so a cut field repeats its last byte |
| `ByteStreams.ByteStream.GetLong64` | dep/linux/zlib/minizip/unzip.c:302-346 | the 64-bit field, the carried byte going through all eight reads |
| `ByteStreams.FieldInside` | dep/linux/zlib/minizip/unzip.c:239-294 | fields inside the file read exactly, fields behind its end read 0 |
| `ByteStreams.FieldsInBytes` | dep/linux/zlib/minizip/unzip.c:239-346 | fields of two, four and eight bytes are little-endian |
| `ByteStreams.CutFieldRepeatsLastByte` | dep/linux/zlib/minizip/unzip.c:212-294 | a field of which one byte is left in the file reads as that byte repeated, without an error |
| `ByteStreams.FieldShifts` | dep/linux/zlib/minizip/unzip.c:239-346 | every field reads the same behind any prefix, cut fields included |
| `SignatureSearch.SearchBackward` | dep/linux/zlib/minizip/unzip.c:413-467 | the blockwise search returns what stepping back one position at a time returns |
| `SignatureSearch.SearchBlock` | dep/linux/zlib/minizip/unzip.c:437-463 | one block of the search, joined to the part already known to be clean: no position between blocks is missed |
| `SignatureSearch.LastSigIsTheLast` | dep/linux/zlib/minizip/unzip.c:413-467 | the result is the largest position p >= 1 in the last 65535 bytes where the signature starts, 0 exactly when there is none, and nothing else is |
| `SignatureSearch.LastSigShifts` | dep/linux/zlib/minizip/unzip.c:413-467 | a signature that is found keeps its distance from the end of the file behind any prefix |
| `FileNames.CompareMemory` | dep/linux/zlib/minizip/unzip.c:349-368 | the comparison loop over two memories computes the three-way comparison of the two C strings in them |
| `FileNames.StringFileNameCompare` | dep/linux/zlib/minizip/unzip.c:390-402 | mode 0 means the default, 1 means exact, anything else caseless |
| `FileNames.ModesMean` | dep/linux/zlib/minizip/unzip.c:371-402 | in modes 0 and 1 two names are equal exactly if they are the same, in any other mode exactly if they differ in nothing but the case of ASCII letters |
| `FileNames.FirstDifferenceDecides` | dep/linux/zlib/minizip/unzip.c:349-402 | the sign: the first difference decides, by unsigned bytes in modes 0 and 1 and by signed capitals otherwise; a name that ends first comes first |
| `FileNames.CompareZero` | dep/linux/zlib/minizip/unzip.c:349-368 | two names compare equal exactly when their (upper-cased) characters agree up to the terminator |
| `FileNames.CompareAntisymmetric` | dep/linux/zlib/minizip/unzip.c:349-368 | swapping the names negates the result |
| `FileNames.CompareTransitive` | dep/linux/zlib/minizip/unzip.c:349-368 | the comparison is transitive, so it orders names |
| `FileNames.TerminatorIsNotNeeded` | dep/linux/zlib/minizip/unzip.c:1263-1272 | a name buffer without a terminator compares with a shorter name as its characters do, whatever follows it in memory |
| `Directories.MatchesExactly` | dep/linux/zlib/minizip/unzip.c:1272-1275 | which names a search takes for the wanted one: by default and in mode 1 only itself, in any other mode every one that differs in the case of ASCII letters only |
| `ZipFormat.WalkEndsWithField` | dep/linux/zlib/minizip/unzip.c:1027-1073 | without Zip64 blocks the walk over the extra field decodes nothing and ends at the end of the field exactly when the field is a row of complete blocks; otherwise it ends too far |
| `ZipFormat.Zip64BlockIsNotSkipped` | dep/linux/zlib/minizip/unzip.c:1039-1073 | in any extra field, behind any complete blocks of other kinds: the walk goes on where the fields end that the entry needs of a Zip64 block, whatever follows, though it counts the whole block; if the block is the last one, the walk is at the end of the field exactly if it needed all of it |
| `CommentShifts.CommentIsMisread` | dep/linux/zlib/minizip/unzip.c:1027-1105 | on bytes: an entry with a Zip64 block that it does not need gets a byte of that block as its comment |
| `ZipFormat.PlainFieldsPass` | dep/linux/zlib/minizip/unzip.c:1039-1069 | an entry without all-ones fields passes any extra field unchanged |
| `ZipFormat.WideLongIgnoresZip64Blocks` | dep/linux/zlib/minizip/unzip.c:1043-1067 | with a 64-bit unsigned long no 32-bit entry is changed by any extra field |
| `ZipFormat.WalkKeepsSizes` | dep/linux/zlib/minizip/unzip.c:1024-1081 | the walk changes nothing of an entry but its two sizes and its offset |
| `ZipFormat.NullBuffersDecode` | dep/linux/zlib/minizip/unzip.c:879-1115 | with null buffers only the magic can fail |
| `Unzip.SearchZip64Record` | dep/linux/zlib/minizip/unzip.c:478-573 | the Zip64 locator and record checks, on any bytes |
| `Unzip.ReadEndRecord` | dep/linux/zlib/minizip/unzip.c:584-744 | the fields of the end record and the checks on them, for both kinds of end record |
| `Unzip.Open` | dep/linux/zlib/minizip/unzip.c:584-762 | opening succeeds exactly on the files that the specification opens, with that archive and the cursor on its first entry |
| `Unzip.UnzFile.ReadHeader` | dep/linux/zlib/minizip/unzip.c:899-965 | the fixed part of a central header, field by field |
| `Unzip.UnzFile.WalkExtraField` | dep/linux/zlib/minizip/unzip.c:1027-1076 | the loop over extra blocks moves and decodes as the specified walk does, block 0x0001 included |
| `Unzip.UnzFile.FillSection` | dep/linux/zlib/minizip/unzip.c:967-1000 | seek bookkeeping for one section: cursor plus lSeek names the start of the next section, and the buffer gets exactly the prefix of its own section that fits, with a terminator if there is room |
| `Unzip.UnzFile.FillExtra` | dep/linux/zlib/minizip/unzip.c:989-1076 | the same for the extra field, which is walked from its start whatever was read of it |
| `Unzip.UnzFile.FillSections` | dep/linux/zlib/minizip/unzip.c:967-1105 | for any choice of name, extra and comment buffers, null or of any size, each receives exactly its part |
| `Unzip.UnzFile.GetCurrentFileInfoInternal` | dep/linux/zlib/minizip/unzip.c:879-1115 | entry and buffers are those of the entry under the cursor, and every error code is accounted for |
| `Unzip.UnzFile.GoToFirstFile` | dep/linux/zlib/minizip/unzip.c:1178-1192 | the cursor after the call, flag and entry included |
| `Unzip.UnzFile.GoToNextFile` | dep/linux/zlib/minizip/unzip.c:1199-1221 | the same, with the 0xffff overflow hack and the end of the list |
| `Unzip.UnzFile.GetFilePos64` | dep/linux/zlib/minizip/unzip.c:1308-1322 | the position and number of the current entry, or the end of the list |
| `Unzip.UnzFile.GoToFilePos64` | dep/linux/zlib/minizip/unzip.c:1338-1358 | the cursor after the call |
| `Unzip.UnzFile.LocateFile` | dep/linux/zlib/minizip/unzip.c:1232-1287 | the search loop on memory, with unterminated name buffers, ends as the specified search does, and restores what it saves |
| `Unzip.UnzFile.CheckCurrentFileCoherencyHeader` | dep/linux/zlib/minizip/unzip.c:1385-1466 | accepts exactly the coherent local headers and returns the sizes that locate the data |
| `Unzip.UnzFile.OpenCurrentFile3` | dep/linux/zlib/minizip/unzip.c:1472-1639 | which entries open, what happens to one that was open, and the state reading starts from |
| `EntryOpenings.OpensExactly` | dep/linux/zlib/minizip/unzip.c:1385-1639 | for every local header written field by field and every directory entry: opening succeeds exactly if the methods are equal and 0, 8 or 12, the name lengths are equal, and either bit 3 of the local flag is set or the crcs are equal and each local size is equal or all ones; reading then starts behind the local name and extra field with sizes and crc of the directory, and otherwise nothing stays open |
| `EntryOpenings.NothingToOpen` | dep/linux/zlib/minizip/unzip.c:1405-1493 | without the signature of a local header, or without a current entry, nothing opens; without an open entry there is nothing to read or to close |
| `EntryOpenings.LevelOfBits` | dep/linux/zlib/minizip/unzip.c:1517-1531 | the compression level that is reported is 6, 9, 2 or 1 by the bits 1 and 2 of the flag |
| `EntryOpenings.WrittenEntryReadsBack` | dep/linux/zlib/minizip/unzip.c:1472-2043 | a written entry whose header agrees reads back in any session: the data of a stored one and, in raw mode, the compressed data of any other, in consecutive pieces, with the crc verdict or, raw, none |
| `EntryOpenings.StreamedEntryReadsBack` | dep/linux/zlib/minizip/unzip.c:1437-1449 | a stored entry that was written to a stream, with crc and sizes 0 in its local header, opens and reads back |
| `Unzip.UnzFile.ReadCurrentFile` | dep/linux/zlib/minizip/unzip.c:1684-1794 | result, buffer and state of a read on a stored or raw entry, errors included |
| `Unzip.UnzFile.Tell` | dep/linux/zlib/minizip/unzip.c:1904-1940 | unztell64 and unzeof are the handed-out count and whether anything is left |
| `Unzip.UnzFile.CloseCurrentFile` | dep/linux/zlib/minizip/unzip.c:2004-2043 | the crc verdict, and that nothing stays open |
| `Unzip.UnzFile.GetGlobalComment` | dep/linux/zlib/minizip/unzip.c:2051-2076 | at most n bytes behind the end record go to the buffer, with a terminator if there is room |
| `EncodedArchives.StampReads` | dep/linux/zlib/minizip/unzip.c:852-863 | a date and time packed by APPNOTE come back field by field: months from 0, a month of 0 as the largest unsigned int |
| `EncodedArchives.FixedPartReads` | dep/linux/zlib/minizip/unzip.c:899-965 | the 46 bytes of a directory entry, written from any values of all their fields, decode to those values |
| `EncodedArchives.ExtraReads` | dep/linux/zlib/minizip/unzip.c:1027-1073 | an extra field of any blocks and a Zip64 block for the values that need 64 bits: the walk takes each value from its place and ends where the field ends |
| `EncodedArchives.ItemReads` | dep/linux/zlib/minizip/unzip.c:879-1115 | a written entry reads back whole: all values, and of name, extra field and comment as much as the buffers hold |
| `EncodedArchives.EndIsFound` | dep/linux/zlib/minizip/unzip.c:413-467 | a written end record is found exactly if it is not at position 0 and its comment has at most 65513 bytes |
| `EncodedArchives.WrittenEndOpens` | dep/linux/zlib/minizip/unzip.c:584-762 | for any values of all fields of the end record and any comment: the archive opens exactly if the record is found, names disk 0 twice and one number of entries, and leaves room for the directory; what is opened is what it says, bytes not accounted for being a prefix |
| `EncodedArchives.LocatorLeads` | dep/linux/zlib/minizip/unzip.c:478-573 | a Zip64 locator counts exactly if it names disk 0, one disk, and a position where a Zip64 record is |
| `EncodedArchives.WrittenZip64Opens` | dep/linux/zlib/minizip/unzip.c:618-697 | for any values of the fields of a Zip64 record: the archive opens exactly if they name disk 0 twice and one number of entries, and offset plus size does not exceed the position of the record; the comment then counts as empty |
| `EncodedArchives.ArchiveReadsBack` | dep/linux/zlib/minizip/unzip.c:1178-1221 | an archive written by APPNOTE behind any prefix: it opens, first and k times next from anywhere lead to its k-th entry, all of which is shown, and the comment of the archive is that of its end record |
| `EncodedArchives.OneEntryQualifies` | dep/linux/zlib/minizip/unzip.c:584-762 | the hypotheses can be met |
| `Directories.FirstIsEntryZero` | dep/linux/zlib/minizip/unzip.c:1178-1192 | in a well-formed directory first goes to entry 0 |
| `Directories.NextIsSuccessor` | dep/linux/zlib/minizip/unzip.c:1199-1221 | next goes to the successor, and at the last entry reports the end without moving |
| `Directories.SavedPositionReturns` | dep/linux/zlib/minizip/unzip.c:1308-1358 | a position that was taken leads back to its entry from anywhere |
| `Directories.LocateFindsFirstMatch` | dep/linux/zlib/minizip/unzip.c:1232-1287 | a search stops at the first matching entry of the directory; it fails exactly when none matches, and then the whole state is as before |
| `Directories.LocateStopsAtMatch` | dep/linux/zlib/minizip/unzip.c:1232-1287 | in any directory, malformed ones included, a search succeeds exactly when some entry k decodes and matches and the entries before k decode, have readable names, do not match and are not the last by number; it then stands on entry k |
| `Directories.LocateInArchive` | dep/linux/zlib/minizip/unzip.c:1232-1287 | so it is in every archive that opens, whatever its bytes are |
| `Directories.LocateRefuses` | dep/linux/zlib/minizip/unzip.c:1249-1254 | a name of 256 bytes or more, or no current entry: an error of its own, and nothing is searched |
| `Directories.FailedLocateRestores` | dep/linux/zlib/minizip/unzip.c:1237-1287 | in any directory, malformed ones included, a failed search changes nothing but the flag that there is a current file; the flag is lost exactly when some entry k does not decode, and the entries before k decode, have readable names, do not match and are not the last by number |
| `Directories.OverflownCountLosesFlag` | dep/linux/zlib/minizip/unzip.c:1208-1212 | with the count 0xffff and readable names every failed search loses the flag |
| `LocateFlags.FlagIsLost` | dep/linux/zlib/minizip/unzip.c:1237-1287 | on bytes: a file that announces two entries and holds one opens, and searching it for another name leaves no current file |
| `Directories.RunsStayOnEntries` | dep/linux/zlib/minizip/unzip.c:1178-1358 | after any run of first, next, locate, get-pos and go-to-pos the position is the directory start plus the sizes of the earlier entries and the entry is the decoding at that position |
| `EntryReaders.FileInZip.Refill` | dep/linux/zlib/minizip/unzip.c:1719-1762 | one refill of the 16 KB buffer, or an untouched state when the block is not there |
| `EntryReaders.FileInZip.ServeRound` | dep/linux/zlib/minizip/unzip.c:1717-1793 | one round of the loop: refill if empty, copy what fits |
| `EntryReaders.FileInZip.ReadCurrentFile` | dep/linux/zlib/minizip/unzip.c:1684-1794 | the buffered loop returns what the specified loop returns, and leaves the rest of the caller's buffer alone |
| `EntryReaders.AccumulateIsReadLoop` | dep/linux/zlib/minizip/unzip.c:1717-1794 | collecting in the caller's buffer and reading recursively are the same |
| `StoredRead.ReadLoopDelivers` | dep/linux/zlib/minizip/unzip.c:1704-1794 | a read delivers the next bytes of the content, min(wanted, left) of them, with every counter in step; in a truncated file it fails exactly when it has to touch a block that is not completely there, after delivering the whole blocks before it |
| `StoredRead.RunOfReads` | dep/linux/zlib/minizip/unzip.c:1600-1610 | any run of reads with any lengths returns consecutive pieces of the data, in raw mode of the compressed data, each of length min(len, bytes left) |
| `StoredRead.RunAdvances` | dep/linux/zlib/minizip/unzip.c:1704-1794 | after any run of either kind the bytes left, total_out_64 and the running crc are those of what was handed out; unless raw, rest_read_uncompressed is what is left |
| `StoredRead.CloseChecksCrc` | dep/linux/zlib/minizip/unzip.c:2017-2023 | close reports a bad crc exactly when the entry is not raw, all bytes were read and the crc of the data differs from the recorded one |
| `Crc.CrcOfPieces` | dep/linux/zlib/minizip/unzip.c:1783-1785 | the checksum of the data does not depend on the pieces it is read in |
| `Sessions.PrefixStillOpens` | dep/linux/zlib/minizip/unzip.c:748-750 | an archive that opens still opens behind any bytes, as the same archive moved back, as long as no Zip64 locator shows up in the window |
| `Sessions.CallsAlike` | dep/linux/zlib/minizip/unzip.c:901-903 | each call of the interface then gives the same reply: infos, names, comments, errors, stored contents |
| `Sessions.SessionsAlike` | dep/linux/zlib/minizip/unzip.c:1730-1734 | so does every sequence of calls, with the same states in between |
| `StoredSessions.EntryReadsBack` | dep/linux/zlib/minizip/unzip.c:1472-2043 | opening a stored entry, or any in raw mode, any reads and closing: opening succeeds, the reads deal out its data in order, each as much as was asked for or is left, and closing reports a bad crc exactly when the entry is not raw, all was read and the crc differs |
| `Mztools.UnzRepair` | dep/linux/zlib/minizip/mztools.c:28-281 | the program returns what the specification computes, and whatever stops it, its output until then is a prefix of the input |
| `Mztools.CopyRecords` | dep/linux/zlib/minizip/mztools.c:49-209 | the loop: what was written, offset, offsetCD, entries and totalBytes belong to the records found so far |
| `Mztools.CopyRecord` | dep/linux/zlib/minizip/mztools.c:64-205 | the body of the loop: which records are broken or do not fit the buffers, and what of them is copied |
| `Mztools.CopyNames` | dep/linux/zlib/minizip/mztools.c:74-106 | name and extra field are copied in turn; a cut or oversized one ends the loop, after what was there |
| `Mztools.TurnProgresses` | dep/linux/zlib/minizip/mztools.c:49-209 | one turn of the loop keeps the invariant between the counters and the two files |
| `Mztools.Merge` | dep/linux/zlib/minizip/mztools.c:243-255 | the final copy appends the whole temporary file, in pieces |
| `Mztools.WriteCentralHeader` | dep/linux/zlib/minizip/mztools.c:136-158 | the 46 bytes of a directory header |
| `Mztools.WriteEndRecord` | dep/linux/zlib/minizip/mztools.c:211-228 | the 22 bytes of the end record, with the entry count capped at 65535 |
| `RepairTwice.RepairIsIdempotent` | dep/linux/zlib/minizip/mztools.c:49-259 | whenever a repair succeeds, repairing its output gives the identical bytes, entry count and byte count |
| `RepairTwice.DirectoryIsNoRecord` | dep/linux/zlib/minizip/mztools.c:52-54 | neither a directory entry nor the end record is taken for a local header |
| `RepairOpens.WrittenHeaderDecodes` | dep/linux/zlib/minizip/mztools.c:136-158 | the directory header that is written decodes to the fields of its local record, at its offset |
| `RepairOpens.RepairedOpens` | dep/linux/zlib/minizip/unzip.c:584-762 | the repaired file opens as the archive that was rebuilt exactly when it holds a record, the end record shows up only once in its own bytes, and no Zip64 locator is found |
| `RepairOpens.EmptyRepairDoesNotOpen` | dep/linux/zlib/minizip/unzip.c:413-467 | a repair that finds no record leaves a file that never opens: its end record stands at position 0, where the search does not look |
| `RepairOpens.EmptyFileDoesNotOpen` | dep/linux/zlib/minizip/mztools.c:28-281 | the empty file is repaired with success to a lone end record, which does not open |
| `RepairOpens.RebuiltEnumerates` | dep/linux/zlib/minizip/unzip.c:1199-1221 | first and next visit all n entries, from 65535 on through the overflow hack, until next meets the end record and fails |
| `RepairOpens.RepairThenOpen` | dep/linux/zlib/minizip/unzip.c:1178-1221 | for any input with such an output below 2 GB and any number of records: the entry count is min(n, 65535), first and next list the local records in order, with name, method, date, crc, sizes and offset, and then fail; below 65535 records the directory is well formed |
| `RepairOpens.RebuiltEntryIsCoherent` | dep/linux/zlib/minizip/unzip.c:1385-1466 | every entry passes the coherency check exactly if its method is 0, 8 or 12 |
| `RepairOpens.RebuiltEntryReads` | dep/linux/zlib/minizip/unzip.c:1600-1610 | opening a stored entry starts a read of exactly the data of its record |
| `RepairRoundTrip.EncodedRecordScans` | dep/linux/zlib/minizip/mztools.c:49-205 | a local record made of a name, extra field and data is found whole, with those parts |
| `RepairRoundTrip.AnyRecordScans` | dep/linux/zlib/minizip/mztools.c:74-131 | any header with a name is a record together with the bytes it announces: of data as many as the compressed size or, if that is 0, the uncompressed size says, and none when that is 2 GB or more |
| `RepairRoundTrip.CutRecordFails` | dep/linux/zlib/minizip/mztools.c:74-131 | a last record cut anywhere behind its header makes unzRepair return -1, whatever whole records stand in front |
| `RepairRoundTrip.NamelessRecordFails` | dep/linux/zlib/minizip/mztools.c:87-90 | a header without a name makes it return -2 |
| `RepairRoundTrip.SurveyFindsAll` | dep/linux/zlib/minizip/mztools.c:49-205 | the loop finds exactly the encoded records in front of anything that is not a local header |
| `RepairRoundTrip.RepairOfRecords` | dep/linux/zlib/minizip/mztools.c:28-281 | unzRepair keeps the records, drops what follows them and writes their directory |
| `RepairRoundTrip.FilesSurviveRepair` | dep/linux/zlib/minizip/mztools.c:49-259 | files written as local records, any number of them, followed by anything, repaired and opened: exactly those files, in order, with all they were recorded with |
| `RepairRoundTrip.ContentsSurviveRepair` | dep/linux/zlib/minizip/unzip.c:1385-1466 | each of them opens exactly if its method is known, and a stored one reads back its data |
| `RepairSessions.WalkReaches` | dep/linux/zlib/minizip/unzip.c:1178-1221 | first and k times next lead from anywhere to the k-th entry of a directory that can be enumerated, every call succeeding |
| `RepairSessions.FileReadsBack` | dep/linux/zlib/minizip/unzip.c:1472-2043 | a whole session with the repaired archive: going to the k-th entry from anywhere, opening, any reads and closing deliver the data of the k-th file and the verdict of its recorded crc |
| `RepairRoundTrip.OneFileQualifies` | dep/linux/zlib/minizip/mztools.c:49-259 | the hypotheses of the last theorems can be met: an archive of one empty file, followed by anything |
| `Crypt.DecodeInvertsEncode` | dep/linux/zlib/minizip/crypt.h:75-82 | from equal keys, decoding gives back the plain text of any length and leaves the writer's keys |
| `Crypt.HeaderDecodes` | dep/linux/zlib/minizip/crypt.h:92-131 | crypthead makes 12 bytes; decoding them from the password's keys ends in the writer's keys, the last two are bits 16-23 and 24-31 of the crc, and decoding the others once more gives the random bytes |
| `Crypt.EntryDecrypts` | dep/linux/zlib/minizip/crypt.h:63-131 | a header followed by encrypted content decrypts with the password alone |
| `Crypt.EncodedByteAt` | dep/linux/zlib/minizip/crypt.h:81-82 | the n-th encrypted byte is, bit by bit, the n-th plain byte exclusive or the key byte after the n bytes before it |
| `Crypt.KeyByteMeans` | dep/linux/zlib/minizip/crypt.h:36-45 | decrypt_byte for any keys: bits 8 to 15 of t * (t ^ 1) with t = (key2 & 0xffff) \| 2 |
| `Crypt.UpdateMeans` | dep/linux/zlib/minizip/crypt.h:30-60 | update_keys for any keys, character and word size, in the bitwise operations of the source |
| `Bits.BitOfXor` | dep/linux/zlib/minizip/crypt.h:30 | what exclusive or does to the i-th bits |
| `Bits.BitOfAnd` | dep/linux/zlib/minizip/crypt.h:43-44 | what and does to them |
| `Bits.BitOfOr` | dep/linux/zlib/minizip/crypt.h:43 | what or does to them |
| `Crypt.KnownAnswer` | dep/linux/zlib/minizip/crypt.h:67-71 | the initial keys are 0x12345678, 0x23456789 and 0x34567890; without a password the byte 0 is encrypted as 171 |
| `Crypt.KnownStep` | dep/linux/zlib/minizip/crypt.h:50-60 | with a table that gives 0x123456 for 0x78, the step on the byte 0 ends in the keys 0 and 79753728722577838 |
| `Crypt.CrcBytesAreHighWord` | dep/linux/zlib/minizip/crypt.h:128-129 | the last two bytes of the header are the high word of the crc |
| `Crypt.ProductFits` | dep/linux/zlib/minizip/crypt.h:36-45 | the product in decrypt_byte never exceeds 32 bits |
| `Crypt.UpdateAgrees` | dep/linux/zlib/minizip/crypt.h:50-60 | one step of the key schedule on 64-bit words keeps keys 0 and 2 below 2^32 and equal to those of a 32-bit machine, key 1 equal modulo 2^32, and gives the same key byte |
| `Crypt.WordSizeDoesNotMatter` | dep/linux/zlib/minizip/crypt.h:30-131 | for every password, header and content a 64-bit writer produces byte for byte what a 32-bit one does |
| `Crypt.UpdateKeys` | dep/linux/zlib/minizip/crypt.h:50-60 | the three words are updated in place |
| `Crypt.InitKeys` | dep/linux/zlib/minizip/crypt.h:66-73 | the loop over the password, up to its terminator |
| `Crypt.ZEncode` | dep/linux/zlib/minizip/crypt.h:78-79 | the key stream byte is taken before the keys move on with the plain byte |
| `Crypt.ZDecode` | dep/linux/zlib/minizip/crypt.h:75-76 | the keys move on with the decoded byte |
| `Crypt.CryptHeadTo` | dep/linux/zlib/minizip/crypt.h:92-131 | the header in the buffer and the keys afterwards; a buffer below 12 bytes changes nothing |
| `ThriftWire.SkipsOneValue` | dep/linux/cassandra/src/cassandra_types.cpp:1999-2009 | skip consumes exactly one well-typed value of the announced type, however nested (the skip of unknown fields) |
| `ThriftCodec.ReadDecodes` | dep/linux/cassandra/src/cassandra_types.cpp:1812-2020 | read on the tokens of any well-typed value tree decodes that tree, or fails as it does, and consumes exactly its tokens |
| `ThriftCodec.ReadInvertsWrite` | dep/linux/cassandra/src/cassandra_types.cpp:1713-2288 | reading what write emitted into a fresh object gives an equal object and leaves exactly the tokens behind it, for every shape of structs, lists and maps |
| `ThriftCodec.ReadMerges` | dep/linux/cassandra/src/cassandra_types.cpp:1375-1432 | reading what write emitted into any object merges the two; the result is what was written exactly when the object held nothing, at any depth, that the written value does not set |
| `ThriftCodec.DecodeMerges` | dep/linux/cassandra/src/cassandra_types.cpp:1458-1522 | the same on value trees |
| `ThriftCodec.DecodeInvertsToWire` | dep/linux/cassandra/src/cassandra_types.cpp:1713-2288 | into a fresh object, on value trees |
| `ThriftCodec.WrittenFieldsFill` | dep/linux/cassandra/src/cassandra_types.cpp:1819-2013 | on written fields the loop merges slot by slot and sets exactly the flags of the fields that were written, whatever the slots held |
| `ThriftTolerance.UnknownFieldsAreSkipped` | dep/linux/cassandra/src/cassandra_types.cpp:2001-2009 | fields with an unknown number or the wrong type change nothing, wherever they stand |
| `ThriftTolerance.SuccessIgnoresPrior` | dep/linux/cassandra/src/cassandra_types.cpp:1390-1430 | whether a read succeeds, and its error, do not depend on what the object held before |
| `ThriftTolerance.InvalidDataExactly` | dep/linux/cassandra/src/cassandra_types.cpp:2137-2246 | with readable nested values, INVALID_DATA is raised exactly when some required field never occurs with its declared type, for any fields in any order and number |
| `ThriftTolerance.OrderDoesNotMatter` | dep/linux/cassandra/src/cassandra_types.cpp:1812-2020 | permuting the distinct fields of a struct and interleaving any others leaves the result, or the failure, unchanged |
| `ThriftTolerance.StructReads` | dep/linux/cassandra/src/cassandra_types.cpp:1812-2020 | the last two hold of the token stream |
| `ThriftProtocol.TProtocol.ReadStruct` | dep/linux/cassandra/src/cassandra_types.cpp:1819-2020 | the checks behind the loop: a required field that was not read is invalid data |
| `ThriftProtocol.TProtocol.FillSlots` | dep/linux/cassandra/src/cassandra_types.cpp:1819-2013 | the loop over fields: slots and isset flags afterwards |
| `ThriftProtocol.TProtocol.ReadElements` | dep/linux/cassandra/src/cassandra_types.cpp:1908-1930 | clear, resize and the loop over list elements |
| `ThriftProtocol.TProtocol.ReadMap` | dep/linux/cassandra/src/Cassandra.cpp:3060-3105 | the loop over map entries; a key that comes again is read into the value it has |
| `ThriftProtocol.TProtocol.ReadValue` | dep/linux/cassandra/src/cassandra_types.cpp:1812-2246 | read for any shape, on the queue of tokens |
| `ThriftProtocol.TProtocol.SkipValue` | dep/linux/cassandra/src/cassandra_types.cpp:1999-2009 | the skipping loops consume what the specification skips |
| `ThriftProtocol.TProtocol.WriteStruct` | dep/linux/cassandra/src/cassandra_types.cpp:2022-2116 | write appends the fields that are set, in declaration order |
| `ThriftProtocol.TProtocol.WriteList` | dep/linux/cassandra/src/cassandra_types.cpp:2064-2077 | the loop over list elements |
| `ThriftProtocol.TProtocol.WriteMap` | dep/linux/cassandra/src/Cassandra.cpp:3138-3170 | the loop over map entries, in key order |
| `ThriftMaps.InsertIsUpdate` | dep/linux/cassandra/src/Cassandra.cpp:3060-3105 | assigning to a key keeps a map sorted, sets that key and changes no other |
| `ThriftMaps.RepeatedKeyMerges` | dep/linux/cassandra/src/Cassandra.cpp:3066-3072 | a key that comes twice on the stream gives one entry, its second value read into the first |
| `ThriftCodec.FirstByteDecides` | dep/linux/cassandra/src/Cassandra.cpp:3138-3170 | the order of map keys: the first different byte decides, or the end of the shorter key |
| `CassandraTypes.KsDefRoundTrip` | dep/linux/cassandra/src/cassandra_types.cpp:2118-2288 | KsDef over CfDef over ColumnDef survives write and read |
| `CassandraNumbers.KsDefNumbers` | dep/linux/cassandra/src/cassandra_types.cpp:2137-2288 | KsDef writes fields 1, 2, 3, 4 and 5 with their types, in this order, and a reader insists on 1, 2, 4 and 5, raising INVALID_DATA exactly if one of them does not come |
| `CassandraNumbers.CfDefNumbers` | dep/linux/cassandra/src/cassandra_types.cpp:2022-2130 | CfDef writes its twenty fields with these numbers and types |
| `CassandraNumbers.CfDefNeeds` | dep/linux/cassandra/src/cassandra_types.cpp:2014-2019 | a reader of CfDef insists on fields 1 and 2 |
| `CassandraNumbers.ColumnNumbers` | dep/linux/cassandra/src/cassandra_types.cpp:13-107 | the same for Column |
| `CassandraNumbers.SuperColumnNumbers` | dep/linux/cassandra/src/cassandra_types.cpp:111-198 | for SuperColumn |
| `CassandraNumbers.ColumnOrSuperColumnNumbers` | dep/linux/cassandra/src/cassandra_types.cpp:202-267 | for ColumnOrSuperColumn, of which nothing is required |
| `CassandraNumbers.ColumnPathNumbers` | dep/linux/cassandra/src/cassandra_types.cpp:641-720 | for ColumnPath, whose numbers begin with 3 |
| `CassandraNumbers.SliceRangeNumbers` | dep/linux/cassandra/src/cassandra_types.cpp:724-819 | for SliceRange |
| `CassandraNumbers.SlicePredicateNumbers` | dep/linux/cassandra/src/cassandra_types.cpp:823-908 | for SlicePredicate |
| `CassandraNumbers.DeletionNumbers` | dep/linux/cassandra/src/cassandra_types.cpp:1375-1454 | for Deletion |
| `CassandraNumbers.MutationNumbers` | dep/linux/cassandra/src/cassandra_types.cpp:1458-1523 | for Mutation |
| `CassandraNumbers.ColumnDefNumbers` | dep/linux/cassandra/src/cassandra_types.cpp:1713-1808 | for ColumnDef |
| `CassandraNumbers.GetArgsNumbers` | dep/linux/cassandra/src/Cassandra.cpp:352-440 | for the arguments of get |
| `CassandraNumbers.BatchMutateArgsNumbers` | dep/linux/cassandra/src/Cassandra.cpp:3040-3176 | for the arguments of batch_mutate |
| `CassandraNumbers.ReaderInsists` | dep/linux/cassandra/src/cassandra_types.cpp:2237-2244 | and so it is on the token stream, whatever the object holds before |
| `CassandraNumbers.KsDefTokens` | dep/linux/cassandra/src/cassandra_types.cpp:2248-2288 | the tokens of a keyspace definition without column families, one by one |
| `CassandraNumbers.MissingReplicationFactor` | dep/linux/cassandra/src/cassandra_types.cpp:2241-2242 | without its replication factor it is INVALID_DATA, with every other required field there |
| `CassandraTypes.BatchMutateRoundTrip` | dep/linux/cassandra/src/Cassandra.cpp:3040-3176 | so do the arguments of batch_mutate: a map of maps of lists of mutations |
| `CassandraTypes.MethodsAreSound` | dep/linux/cassandra/src/Cassandra.cpp:352-627 | get and batch_mutate meet the assumptions of the exchange |
| `CassandraTypes.StaleColumnSurvives` | dep/linux/cassandra/src/cassandra_types.cpp:1475-1492 | read merges into the object it is given: a column that was there stays when a super column is read |
| `CassandraRpc.CassandraProcessor.Process` | dep/linux/cassandra/src/Cassandra.cpp:8101-8144 | one request served: state, request stream and reply stream afterwards, or the exception that leaves it |
| `CassandraRpc.CassandraProcessor.ProcessCall` | dep/linux/cassandra/src/Cassandra.cpp:8209-8247 | arguments, handler, catch blocks and reply |
| `CassandraRpc.Recv` | dep/linux/cassandra/src/Cassandra.cpp:6429-6477 | what the client makes of any reply, with the order of its checks, for any object to return |
| `CassandraRpc.Send` | dep/linux/cassandra/src/Cassandra.cpp:6411-6427 | the request |
| `CassandraRpc.OneSetIsFirst` | dep/linux/cassandra/src/Cassandra.cpp:525-555 | the if-else chain of a result's write loses nothing, because at most one slot is set |
| `CassandraRpc.ServesOne` | dep/linux/cassandra/src/Cassandra.cpp:8101-8144 | any readable request, with a wrong type or an unknown name included, is consumed whole and answered by exactly one message with its name and sequence number |
| `CassandraReplies.RefusesExactly` | dep/linux/cassandra/src/Cassandra.cpp:8101-8141 | a call of an unknown method is answered, token by token, with an exception of type 1 and the text that names it, a message that is no call with type 2; the handlers are not reached |
| `CassandraReplies.ErrorArrives` | dep/linux/cassandra/src/Cassandra.cpp:6435-6441 | the client that gets such a message has its text and type |
| `CassandraReplies.ForeignMessageIsRefused` | dep/linux/cassandra/src/Cassandra.cpp:6442-6453 | a message of another type ends in type 2, a reply with another name in type 3, consumed whole |
| `CassandraReplies.EmptyReplyMeans` | dep/linux/cassandra/src/Cassandra.cpp:6454-6477 | a reply without fields is the result of a void method, and for any other type 5 with the text that names the method |
| `CassandraReplies.ReplyTokens` | dep/linux/cassandra/src/Cassandra.cpp:525-555 | what a handler did, token by token: its value as field 0, its i-th exception as field i + 1, nothing for void, and any other exception with type 0 and its text |
| `CassandraRpc.ServesAll` | dep/linux/cassandra/src/Cassandra.cpp:8101-8144 | a queue of such requests is served to the end, one answer each, in order |
| `CassandraRpc.ReplyIsFaithful` | dep/linux/cassandra/src/Cassandra.cpp:6429-6477 | the client makes of the reply what the handler did: its value merged into the object to return, a declared exception, or TApplicationException for any other |
| `CassandraRpc.ValueIsDelivered` | dep/linux/cassandra/src/Cassandra.cpp:6456-6464 | a fresh object receives the value as it is, any other exactly if it holds nothing, at any depth, that the value does not set |
| `CassandraRpc.CallIsFaithful` | dep/linux/cassandra/src/Cassandra.cpp:6405-6477 | one call over empty streams, into any object, delivers what calling the handler returns and leaves the streams empty |
| `CassandraRpc.RpcFidelity` | dep/linux/cassandra/src/Cassandra.cpp:8209-8247 | so does any sequence of calls with well-formed arguments, handlers with state included |
| `BsonLayout.BSONElement.ComputeSize` | dep/linux/mongodb/mongo/bson/bson-inl.h:346-426 | size with its two caches gives what it gives without them |
| `BsonLayout.BSONObjIterator.Next` | dep/linux/mongodb/mongo/bson/bsonobjiterator.h:58-63 | the element under the cursor, which moves by its size |
| `BsonLayout.CheckedSizeIsBounded` | dep/linux/mongodb/mongo/bson/bson-inl.h:346-426 | with a limit the size, or the failed assertion, depends on no other bytes than those in front of the limit, wherever they stand |
| `BsonDocuments.EncodedElementMeasures` | dep/linux/mongodb/mongo/bson/bson-inl.h:346-426 | size() of an encoded element is its encoded length, for every type of the grammar, which has the type bytes and widths of bsonspec.org as numbers, with any sufficient limit and without one |
| `BsonDocuments.BadElementAsserts` | dep/linux/mongodb/mongo/bson/bson-inl.h:376-421 | with a limit, the assertion that fails for each type whose length is cut, and for every byte that is no type |
| `BsonDocuments.UnterminatedNameAsserts` | dep/linux/mongodb/mongo/bson/bsonelement.h:369-382 | a field name without terminator in front of the limit fails an assertion of its own |
| `BsonDocuments.WalkFindsElements` | dep/linux/mongodb/mongo/bson/bsonobjiterator.h:36-63 | iterating over an encoded document delivers exactly its elements in order, checked and unchecked alike, and more() turns false exactly at EOO |
| `BsonDocuments.ElementsStand` | dep/linux/mongodb/mongo/bson/bsonobjiterator.h:58-63 | at each position where the iterator stops stands the encoding of its element |
| `BsonPrint.InnerIsSmaller` | dep/linux/mongodb/mongo/bson/bson-inl.h:307-344 | on arbitrary bytes: an object, array or scope that the printer descends into lies in memory and is strictly smaller than its element, by the checks made before |
| `BsonPrint.PrintedObjectIsTiled` | dep/linux/mongodb/mongo/bson/bson-inl.h:273-301 | on arbitrary bytes: a run without failed assertion on an object longer than five bytes means that its elements tile bytes 4 to objsize, EOO last |
| `BsonPrint.EncodedObjectPrints` | dep/linux/mongodb/mongo/bson/bson-inl.h:273-344 | every encoded document of a permitted size passes all the checks, all the way down |
| `BsonPrint.EncodedDocumentPrints` | dep/linux/mongodb/mongo/bson/bson-inl.h:273-344 | every encoded document below 2 GB passes the checks up to 16793600 bytes, and fails 10334 from there on |
| `BsonPrint.MissingEOOIsRefused` | dep/linux/mongodb/mongo/bson/bson-inl.h:282-284 | an object without EOO fails 10327, whatever elements it holds |
| `BsonPrint.EarlyEOOIsRefused` | dep/linux/mongodb/mongo/bson/bson-inl.h:291-295 | one that goes on behind its EOO fails 10331 |
| `BsonPrint.CutElementIsRefused` | dep/linux/mongodb/mongo/bson/bson-inl.h:287-289 | one that ends inside a value of fixed width fails 10330 |
| `BsonPrint.UnterminatedStringIsRefused` | dep/linux/mongodb/mongo/bson/bson-inl.h:310-325 | a string, code, symbol or reference whose text does not end in a zero fails 10321 |
| `BsonPrint.ScopeIsChecked` | dep/linux/mongodb/mongo/bson/bson-inl.h:326-340 | code with scope on any bytes behind its size: it passes exactly if the code ends where its length says and not earlier and the scope takes exactly the rest, and otherwise fails 10323, 10324, 10325 or 10326 by what is wrong |
| `BsonPrint.ToStringLoop` | dep/linux/mongodb/mongo/bson/bson-inl.h:273-301 | the loop with its iterator terminates on any bytes, with the specified verdict |
| `BsonFields.DottedIsDescent` | dep/linux/mongodb/mongo/bson/bson-inl.h:535-553 | with no dot in a field name, dotted lookup is descending by first match along the parts of the path |
| `BsonFields.DottedNameHidesPath` | dep/linux/mongodb/mongo/bson/bson-inl.h:535-548 | on a concrete document it is not: a field whose own name has a dot hides what the path leads to |
| `BsonFields.DottedFinds` | dep/linux/mongodb/mongo/bson/bson-inl.h:535-553 | dotted lookup on the bytes of a document finds the bytes of what it finds in the document |
| `BsonFields.DottedIsDescentExactly` | dep/linux/mongodb/mongo/bson/bson-inl.h:535-553 | for every document and path: dotted lookup is descent exactly when at each level no field has the whole remaining path as its name, as long as there is an object to go on in |
| `BsonFields.PathLeadsInside` | dep/linux/mongodb/mongo/bson/bson-inl.h:535-553 | a path leads into embedded objects and arrays alike, and into nothing else |
| `BsonFields.SplitJoins` | dep/linux/mongodb/mongo/bson/bson-inl.h:535-553 | the parts of a path hold no dots, and with dots in between they are the path |
| `BsonFields.FindFinds` | dep/linux/mongodb/mongo/bson/bson-inl.h:103-111 | getField finds the first element with the name |
| `BsonFields.GetIsFirst` | dep/linux/mongodb/mongo/bson/bson-inl.h:103-111 | the first one with the name, by position |
| `BsonFields.UniqueIsLeftBiased` | dep/linux/mongodb/mongo/bson/bson-inl.h:124-141 | after appendElementsUnique first-match lookup is a left-biased union |
| `BsonFields.RepeatedFieldsAreKept` | dep/linux/mongodb/mongo/bson/bson-inl.h:124-141 | everything of x is kept, names that repeat one another included, exactly when none of its names is in the builder |
| `BsonFields.BSONObjBuilder.AppendElementsUnique` | dep/linux/mongodb/mongo/bson/bson-inl.h:124-141 | the builder holds its old fields followed by those of x whose names were absent beforehand |
| `BsonFields.Bson2Map` | dep/linux/mongodb/mongo/bson/bson-inl.h:242-250 | the map holds where the last field of each name is |
| `BsonFields.MapHoldsLast` | dep/linux/mongodb/mongo/bson/bson-inl.h:242-250 | the last duplicate wins |
| `BsonFields.LastIsLast` | dep/linux/mongodb/mongo/bson/bson-inl.h:242-250 | the last one with the name, by position |
| `DotLexers.LexemesTile` | scripts/xdot.py:759-773 | the texts skipped and the texts scanned tile the buffer; each token that next delivers is the filtered text of its piece, and behind the last one stands nothing but skipped text and the end or a rejected character |
| `DotLexers.TokensCutClean` | scripts/xdot.py:916-968 | no token ends between \r and \n |
| `DotLexers.TrackInPieces` | scripts/xdot.py:850-866 | counting lines and columns piece by piece is counting them over the whole, unless a line end is cut |
| `DotLexers.CutLineEndCountsTwice` | scripts/xdot.py:850-855 | a cut line end would be counted twice |
| `DotLexers.Lexer.Consume` | scripts/xdot.py:850-866 | the two loops over line ends and tab stops compute the character-by-character place |
| `DotLexers.LinesAreCounted` | scripts/xdot.py:852-856 | the line is that of the start and one more for every \r\n, \r or \n |
| `DotLexers.ColumnsAreCounted` | scripts/xdot.py:858-866 | the column: 1 behind a line end, one more behind any other character, and behind a tab the next one that is 1 modulo 8 |
| `DotLexers.Lexer.Next` | scripts/xdot.py:824-848 | each token's line and column are those from consuming its whole prefix at once |
| `DotParsers.SkipNeverEnds` | scripts/xdot.py:883-885 | skip never ends exactly when no token of the kind is ahead and no rejected character follows |
| `DotParsers.SkipOnSmallFiles` | scripts/xdot.py:883-885 | on the file "a" skip never ends; on "a @" it does, by raising |
| `DotParsers.ChainEndsOrRaises` | scripts/xdot.py:1053-1054 | the loop over further edge operators never goes round: it is left at once or it raises |
| `DotGraphs.GraphParses` | scripts/xdot.py:1007-1108 | any graph, with chains of edge operators anywhere in it, nested subgraphs included, and with each comma, semicolon, subgraph keyword, name, port and repeated attribute list there or not: it raises exactly if there is a chain; otherwise there is one call of a handler for each graph, node and edge statement, in order and with its attributes, and each of the three dictionaries holds what the statements for its target have written |
| `DotGraphs.MeaningIsGraph` | scripts/xdot.py:1034-1045 | attribute statements: one for the graph extends its dictionary and is handled, one for nodes or edges extends its own dictionary only |
| `DotGraphs.LastAttributeWins` | scripts/xdot.py:1067-1086 | the last attribute of a name gives its value, "true" if it has none |
| `DotGraphs.StmtParses` | scripts/xdot.py:1034-1065 | the same for one statement, wherever its tokens stand |
| `DotGraphs.ChainsRaise` | scripts/xdot.py:1048-1057 | an edge statement with any number of operators is accepted exactly when it has one |
| `DotAccepted.AcceptsExactlyGraphs` | scripts/xdot.py:1007-1108 | the parser accepts a file exactly when no character is rejected and its tokens are those of a graph without chains: nothing else is in the language |
| `DotPlaces.ParseProjects` | scripts/xdot.py:1007-1108 | parsing depends on the kinds and on the texts of identifiers only |
| `DotTexts.WrittenLexes` | scripts/xdot.py:824-848 | the lexer gives back the tokens of a text that was written: words, signed and decimal numerals, strings, HTML strings with brackets in them, both edge operators, and in between any white space and comments, or nothing where tokens stay apart |
| `DotStrings.QuotedFilters` | scripts/xdot.py:974-990 | a string says what its parts mean: escaped quotes come back, folded line ends vanish, and other backslashes stay |
| `DotStrings.QuotedScans` | scripts/xdot.py:935 | it is scanned up to its closing quote |
| `DotTexts.TextParses` | scripts/xdot.py:1007-1018 | a graph written as text in any of these spellings goes through lexer and parser to what it says, or raises if there is a chain in it |
| `DotFiles.ChainFileRaises` | scripts/xdot.py:1048-1057 | the file digraph{a->b->c} raises |
| `DotFiles.EdgesFileParses` | scripts/xdot.py:1048-1057 | the file digraph{a->b;b->c} is accepted, and both edges are handled |
| `DotParsers.DotParser.ParseFile` | scripts/xdot.py:1007-1018 | on every file with an opening brace or a rejected character the recursive descent terminates with the specified result |
| `DotParsers.ParseText` | scripts/xdot.py:1007-1018 | lexer, constructor and parse on a text: the result is the specified one |
| `DotParsers.DotParser.ReadStmt` | scripts/xdot.py:1034-1065 | one statement: it consumes a token or raises, through the recursion with subgraphs |
| `DotParsers.DotParser.ReadSubgraph` | scripts/xdot.py:1020-1032 | a subgraph, with or without name and body |
| `DotParsers.DotParser.ReadAttrs` | scripts/xdot.py:1067-1077 | attribute lists, a later name winning |

## Left out

- Inflating and bzip2: only stored and raw content is read; an inflated read is a reply of its own in `Sessions`. As `unzip.c` is built here without bzip2, a bzip2 entry is read raw.
- The table and polynomial of crc32: the checksum is any fold over bytes in `Crc`, and the table of the cipher is any table of bytes (of 32-bit words where word size is compared).
- File input and output, allocation failure and closing of files: a file is a byte sequence with a cursor, seeking past its end succeeds, writing never fails.
- Platform limits: file offsets and sizes of 2^63 and more, the signed 32-bit counters of `mztools.c` beyond 2 GB, containers of 2^32 elements, and overflow of signed arithmetic on BSON lengths.
- What `unzRepair` does with a name over 256 or an extra field over 1024 bytes: it writes past its arrays; the model stops with an outcome of its own, `Unspecified`.
- `unzGetLocalExtrafield`, `unzSetOffset64`, `unzGetGlobalInfo` and the 32-bit twins of the 64-bit calls.
- Decryption inside `unzip.c`, which is compiled out there, and the `zip.c` writer.
- Thrift's own library: `TProtocol` is a queue of tokens, `skip` and `TApplicationException` are modelled as the callers rely on them; the byte encodings, the transport and the `xfer` counts are not part of this model.
- The remaining structs and methods that the Thrift compiler generated have the forms that are modelled; `CassandraNull` and `CassandraMultiface` are left out.
- Unwinding: after a C++ exception in the middle of a read, what the half-filled object and the stream hold is not said.
- The text that BSON's `toString` prints, and with it the reading of a regular expression without terminator while printing.
- The error message of an embedded object with an impossible size, for which `_assertInvalid` prints its first element.
- `bson2set` and its comparator, `BSONObjIteratorSorted`, JSON output, and the builder's other `append` functions.
- Memory mapping, the names of files in error messages and regular expression flags beyond ASCII in `xdot.py`; `XDotAttrParser`, drawing and the user interface.
- DotTexts.TextParses: the strings in quotes hold no two backslashes in a row.
- DotParsers.DotParser.ParseFile: files on which `skip` never ends (`DotParsers.SkipNeverEnds`) have no result.
- Unzip.Open: positions are unbounded; in C the sum of a position and the length of the prefix is taken modulo 2^64, which offsets in crafted Zip64 records can exceed.
- RepairTwice.RepairIsIdempotent: the counters are unbounded; those of `mztools.c` overflow beyond 2 GB.
- Unzip.UnzFile.ReadCurrentFile: entries that are stored or opened raw; inflating is not modelled.
- EntryReaders.FileInZip.ReadCurrentFile: entries that are stored or opened raw; inflating is not modelled.
