// The directory cursor of an opened archive: what first, next, locate and go-to-position do to
// the mutable fields of unz64_s. Decoding is a parameter, so the laws hold for any directory.
module Directories {
  import opened Bytes
  import opened Options
  import opened ByteStreams
  import opened FileNames
  import opened ZipFormat

  const UNZ_MAXFILENAMEINZIP: nat := 256

  datatype Cursor = Cursor(numFile: nat, pos: nat, ok: bool, entry: Entry)

  datatype FilePos = FilePos(posInZipDirectory: nat, numOfFile: nat)

  // entryAt decodes the entry at a directory position; nameAt also reads the first
  // UNZ_MAXFILENAMEINZIP bytes of its name.
  datatype Directory = Directory(
    entryAt: nat -> Option<Entry>, nameAt: nat -> InfoResult, numberEntry: nat, offset: nat)

  function DirectoryOf(a: Archive): Directory
  {
    Directory((p: nat) => GetEntry(a.data, p + a.byteBefore, a.ulongMax),
              (p: nat) => GetInfo(a.data, p + a.byteBefore, a.ulongMax, Some(UNZ_MAXFILENAMEINZIP), None, None),
              a.numberEntry, a.offsetCentralDir)
  }

  // Nothing decodes from limit on.
  ghost predicate EndsBy(dir: Directory, limit: nat)
  {
    forall p: nat :: dir.entryAt(p).Some? ==> p < limit
  }

  lemma DirectoriesEnd(a: Archive)
    ensures EndsBy(DirectoryOf(a), |a.data|)
  {
    forall p: nat ensures DirectoryOf(a).entryAt(p).Some? ==> p < |a.data| {
      FieldInside(a.data, p + a.byteBefore);
      assert DirectoryOf(a).entryAt(p) == GetEntry(a.data, p + a.byteBefore, a.ulongMax);
    }
  }

  // Decode the entry at the cursor; a failure keeps the old entry and only clears the flag.
  function Reload(dir: Directory, c: Cursor): (int, Cursor)
  {
    match dir.entryAt(c.pos)
    case None => (UNZ_BADZIPFILE, c.(ok := false))
    case Some(e) => (UNZ_OK, c.(ok := true, entry := e))
  }

  function GoToFirst(dir: Directory, c: Cursor): (int, Cursor)
  {
    Reload(dir, c.(pos := dir.offset, numFile := 0))
  }

  function EntrySize(e: Entry): (n: nat)
    ensures n >= SIZECENTRALDIRITEM
  {
    SIZECENTRALDIRITEM + e.info.sizeFilename + e.info.sizeFileExtra + e.info.sizeFileComment
  }

  function GoToNext(dir: Directory, c: Cursor): (int, Cursor)
  {
    if !c.ok || (dir.numberEntry != 0xffff && c.numFile + 1 == dir.numberEntry) then (UNZ_END_OF_LIST_OF_FILE, c)
    else Reload(dir, c.(pos := c.pos + EntrySize(c.entry), numFile := c.numFile + 1))
  }

  function GoToFilePos(dir: Directory, c: Cursor, p: FilePos): (int, Cursor)
  {
    Reload(dir, c.(pos := p.posInZipDirectory, numFile := p.numOfFile))
  }

  predicate NameMatches(name: seq<Byte>, wanted: seq<Byte>, iCaseSensitivity: int)
  {
    Compare(CString(name), wanted, Caseless(iCaseSensitivity)) == 0
  }

  // By default and in mode 1 a name matches exactly if it is the wanted one up to its terminator;
  // any other mode disregards the case of ASCII letters, and nothing else.
  lemma MatchesExactly(name: seq<Byte>, wanted: seq<Byte>, mode: int)
    ensures mode == 0 || mode == 1 ==> (NameMatches(name, wanted, mode) <==> CString(name) == wanted)
    ensures mode != 0 && mode != 1 ==>
              (NameMatches(name, wanted, mode) <==>
               && |CString(name)| == |wanted|
               && forall k :: 0 <= k < |wanted| ==>
                    CString(name)[k] == wanted[k] || CasePair(CString(name)[k], wanted[k]))
  {
    hide Compare, Caseless, CasePair;
    ModesMean(CString(name), wanted, mode);
  }

  // The loop of unzLocateFile from a cursor that decodes.
  function LocateFrom(dir: Directory, ghost limit: nat, c: Cursor, wanted: seq<Byte>,
          iCaseSensitivity: int): (int, Cursor)
    requires EndsBy(dir, limit)
    decreases if c.pos < limit then limit - c.pos else 0
  {
    match dir.nameAt(c.pos)
    case NoInfo(err) => (err, c)
    case Info(_, name, _, _) =>
      if NameMatches(name, wanted, iCaseSensitivity) then (UNZ_OK, c)
      else
        var (err, c') := GoToNext(dir, c);
        if err != UNZ_OK then (err, c') else LocateFrom(dir, limit, c', wanted, iCaseSensitivity)
  }

  // The search from the first entry, before a failure is undone
  function LocateScan(dir: Directory, ghost limit: nat, c: Cursor, wanted: seq<Byte>,
          iCaseSensitivity: int): (int, Cursor)
    requires EndsBy(dir, limit)
  {
    var (err, first) := GoToFirst(dir, c);
    if err != UNZ_OK then (err, first) else LocateFrom(dir, limit, first, wanted, iCaseSensitivity)
  }

  function Locate(dir: Directory, ghost limit: nat, c: Cursor, wanted: seq<Byte>, iCaseSensitivity: int): (int, Cursor)
    requires EndsBy(dir, limit)
  {
    if |wanted| >= UNZ_MAXFILENAMEINZIP then (UNZ_PARAMERROR, c)
    else if !c.ok then (UNZ_END_OF_LIST_OF_FILE, c)
    else
      var (err, c') := LocateScan(dir, limit, c, wanted, iCaseSensitivity);
      if err == UNZ_OK then (err, c') else (err, c'.(numFile := c.numFile, pos := c.pos, entry := c.entry))
  }

  // A name of 256 bytes or more, or no current entry: nothing is searched.
  lemma LocateRefuses(dir: Directory, limit: nat, c: Cursor, wanted: seq<Byte>, mode: int)
    requires EndsBy(dir, limit) && (|wanted| >= 256 || !c.ok)
    ensures Locate(dir, limit, c, wanted, mode) == (if |wanted| >= 256 then -102 else -100, c)
  {
  }

  // ---------- well-formed directories ----------

  // Where the k-th entry starts, stepping over the sizes of those before it
  function EntryPos(dir: Directory, k: nat): (p: nat)
    ensures p >= dir.offset
  {
    if k == 0 then dir.offset
    else
      var p := EntryPos(dir, k - 1);
      p + if dir.entryAt(p).Some? then EntrySize(dir.entryAt(p).value) else SIZECENTRALDIRITEM
  }

  // All number_entry entries decode, and their names can be read.
  ghost predicate WellFormed(dir: Directory)
  {
    && 0 < dir.numberEntry < 0xffff
    && forall k: nat :: k < dir.numberEntry ==> Decodes(dir, k)
  }

  ghost predicate Decodes(dir: Directory, k: nat)
  {
    dir.entryAt(EntryPos(dir, k)).Some? && dir.nameAt(EntryPos(dir, k)).Info?
  }

  // The cursor that stands on the k-th entry
  function CursorAt(dir: Directory, k: nat): Cursor
    requires Decodes(dir, k)
  {
    Cursor(k, EntryPos(dir, k), true, dir.entryAt(EntryPos(dir, k)).value)
  }

  predicate MatchesEntry(dir: Directory, k: nat, wanted: seq<Byte>, mode: int)
    requires Decodes(dir, k)
  {
    NameMatches(dir.nameAt(EntryPos(dir, k)).name, wanted, mode)
  }

  lemma FirstIsEntryZero(dir: Directory, c: Cursor)
    requires WellFormed(dir)
    ensures Decodes(dir, 0) && GoToFirst(dir, c) == (UNZ_OK, CursorAt(dir, 0))
  {
    assert Decodes(dir, 0);
  }

  lemma NextIsSuccessor(dir: Directory, k: nat)
    requires WellFormed(dir) && k < dir.numberEntry
    ensures Decodes(dir, k) && (k + 1 < dir.numberEntry ==> Decodes(dir, k + 1))
    ensures GoToNext(dir, CursorAt(dir, k)) ==
            if k + 1 == dir.numberEntry then (UNZ_END_OF_LIST_OF_FILE, CursorAt(dir, k))
            else (UNZ_OK, CursorAt(dir, k + 1))
  {
    assert Decodes(dir, k);
    if k + 1 < dir.numberEntry {
      assert Decodes(dir, k + 1);
    }
  }

  // A position taken with unzGetFilePos64 leads back to the same entry from anywhere.
  lemma SavedPositionReturns(dir: Directory, c: Cursor, k: nat)
    requires WellFormed(dir) && k < dir.numberEntry
    ensures Decodes(dir, k) && GoToFilePos(dir, c, FilePos(EntryPos(dir, k), k)) == (UNZ_OK, CursorAt(dir, k))
  {
    assert Decodes(dir, k);
  }

  // j is the first entry from k on that matches, numberEntry if there is none.
  ghost predicate FirstMatch(dir: Directory, k: nat, j: nat, wanted: seq<Byte>, mode: int)
    requires WellFormed(dir)
  {
    && k <= j <= dir.numberEntry
    && (j < dir.numberEntry ==> Decodes(dir, j) && MatchesEntry(dir, j, wanted, mode))
    && forall i: nat :: k <= i < j ==> Decodes(dir, i) && !MatchesEntry(dir, i, wanted, mode)
  }

  lemma {:induction false} LocateFromEntry(dir: Directory, limit: nat, k: nat, wanted: seq<Byte>, mode: int)
    returns (j: nat)
    requires WellFormed(dir) && k < dir.numberEntry && EndsBy(dir, limit)
    ensures Decodes(dir, k) && FirstMatch(dir, k, j, wanted, mode)
    ensures var (err, c) := LocateFrom(dir, limit, CursorAt(dir, k), wanted, mode);
            if j < dir.numberEntry then err == UNZ_OK && c == CursorAt(dir, j)
            else err == UNZ_END_OF_LIST_OF_FILE && c.ok
    decreases dir.numberEntry - k
  {
    NextIsSuccessor(dir, k);
    if MatchesEntry(dir, k, wanted, mode) {
      j := k;
    } else if k + 1 == dir.numberEntry {
      j := k + 1;
    } else {
      j := LocateFromEntry(dir, limit, k + 1, wanted, mode);
    }
  }

  // In a well-formed directory a search stops at the first matching name; it fails exactly when
  // no name matches, and then nothing has moved.
  lemma LocateFindsFirstMatch(dir: Directory, limit: nat, k: nat, wanted: seq<Byte>, mode: int) returns (j: nat)
    requires WellFormed(dir) && k < dir.numberEntry && EndsBy(dir, limit) && |wanted| < UNZ_MAXFILENAMEINZIP
    ensures Decodes(dir, k) && FirstMatch(dir, 0, j, wanted, mode)
    ensures Locate(dir, limit, CursorAt(dir, k), wanted, mode) ==
            if j < dir.numberEntry then (UNZ_OK, CursorAt(dir, j)) else (UNZ_END_OF_LIST_OF_FILE, CursorAt(dir, k))
  {
    assert Decodes(dir, k);
    FirstIsEntryZero(dir, CursorAt(dir, k));
    j := LocateFromEntry(dir, limit, 0, wanted, mode);
  }

  // A search passes over entry i: it decodes, its name can be read and does not match, and it is
  // not the last one announced. A count of 0xffff announces no last one.
  ghost predicate PassedOver(dir: Directory, i: nat, wanted: seq<Byte>, mode: int)
  {
    Decodes(dir, i) && !MatchesEntry(dir, i, wanted, mode) && (dir.numberEntry == 0xffff || i + 1 != dir.numberEntry)
  }

  // Behind entries that are passed over, the directory does not go on with an entry.
  ghost predicate BreaksAt(dir: Directory, k: nat, wanted: seq<Byte>, mode: int)
  {
    dir.entryAt(EntryPos(dir, k)) == None && forall i: nat :: i < k ==> PassedOver(dir, i, wanted, mode)
  }

  // A failed search ends on entry k: the directory breaks there, or it goes no further because the
  // name cannot be read or the last entry is reached.
  ghost predicate FailsAt(dir: Directory, k: nat, wanted: seq<Byte>, mode: int, ok: bool)
  {
    && (forall i: nat :: i < k ==> PassedOver(dir, i, wanted, mode))
    && (if ok then dir.entryAt(EntryPos(dir, k)).Some? && !PassedOver(dir, k, wanted, mode)
        else dir.entryAt(EntryPos(dir, k)) == None)
  }

  lemma {:induction false} FailureHasPlace(dir: Directory, limit: nat, k: nat, wanted: seq<Byte>, mode: int)
    returns (j: nat)
    requires EndsBy(dir, limit) && dir.entryAt(EntryPos(dir, k)).Some?
    requires forall i: nat :: i < k ==> PassedOver(dir, i, wanted, mode)
    requires var c := Cursor(k, EntryPos(dir, k), true, dir.entryAt(EntryPos(dir, k)).value);
             LocateFrom(dir, limit, c, wanted, mode).0 != UNZ_OK
    ensures var c := Cursor(k, EntryPos(dir, k), true, dir.entryAt(EntryPos(dir, k)).value);
            FailsAt(dir, j, wanted, mode, LocateFrom(dir, limit, c, wanted, mode).1.ok)
    decreases limit - EntryPos(dir, k)
  {
    var c := Cursor(k, EntryPos(dir, k), true, dir.entryAt(EntryPos(dir, k)).value);
    if !PassedOver(dir, k, wanted, mode) {
      j := k;
    } else {
      var (err, c') := GoToNext(dir, c);
      assert c'.pos == EntryPos(dir, k + 1);
      if err != UNZ_OK {
        j := k + 1;
      } else {
        j := FailureHasPlace(dir, limit, k + 1, wanted, mode);
      }
    }
  }

  // In any directory a failed search puts back entry, number and position, but not the flag: the
  // flag is lost exactly when the directory breaks behind entries that the search passes over.
  lemma FailedLocateRestores(dir: Directory, limit: nat, c: Cursor, wanted: seq<Byte>, mode: int)
    requires EndsBy(dir, limit) && c.ok && |wanted| < UNZ_MAXFILENAMEINZIP
    requires Locate(dir, limit, c, wanted, mode).0 != UNZ_OK
    ensures var c' := Locate(dir, limit, c, wanted, mode).1;
            && c' == c.(ok := c'.ok)
            && (!c'.ok <==> exists k: nat :: BreaksAt(dir, k, wanted, mode))
  {
    var c' := Locate(dir, limit, c, wanted, mode).1;
    if dir.entryAt(EntryPos(dir, 0)) == None {
      assert BreaksAt(dir, 0, wanted, mode);
    } else {
      var j := FailureHasPlace(dir, limit, 0, wanted, mode);
      PlaceDecides(dir, j, wanted, mode, c'.ok);
    }
  }

  lemma PlaceDecides(dir: Directory, j: nat, wanted: seq<Byte>, mode: int, ok: bool)
    requires FailsAt(dir, j, wanted, mode, ok)
    ensures !ok <==> exists k: nat :: BreaksAt(dir, k, wanted, mode)
  {
    hide Decodes, MatchesEntry;
    if ok {
      forall k: nat ensures !BreaksAt(dir, k, wanted, mode) {
        if k < j {
          PassedOverDecodes(dir, k, wanted, mode);
        }
      }
    } else {
      assert BreaksAt(dir, j, wanted, mode);
    }
  }

  lemma PassedOverDecodes(dir: Directory, i: nat, wanted: seq<Byte>, mode: int)
    requires PassedOver(dir, i, wanted, mode)
    ensures dir.entryAt(EntryPos(dir, i)).Some?
  {
  }

  // With a count of 0xffff and readable names every failed search loses the flag.
  lemma OverflownCountLosesFlag(dir: Directory, limit: nat, c: Cursor, wanted: seq<Byte>, mode: int)
    requires EndsBy(dir, limit) && c.ok && |wanted| < UNZ_MAXFILENAMEINZIP && dir.numberEntry == 0xffff
    requires forall p: nat :: dir.entryAt(p).Some? ==> dir.nameAt(p).Info?
    requires Locate(dir, limit, c, wanted, mode).0 != UNZ_OK
    ensures Locate(dir, limit, c, wanted, mode).1 == c.(ok := false)
  {
    FailedLocateRestores(dir, limit, c, wanted, mode);
    if dir.entryAt(EntryPos(dir, 0)).Some? {
      ReadableSearchBreaks(dir, limit, GoToFirst(dir, c).1, wanted, mode);
    }
  }

  lemma {:induction false} ReadableSearchBreaks(dir: Directory, limit: nat, c: Cursor, wanted: seq<Byte>, mode: int)
    requires EndsBy(dir, limit) && c.ok && dir.entryAt(c.pos).Some? && dir.numberEntry == 0xffff
    requires forall p: nat :: dir.entryAt(p).Some? ==> dir.nameAt(p).Info?
    ensures var (err, c') := LocateFrom(dir, limit, c, wanted, mode);
            err != UNZ_OK ==> !c'.ok
    decreases limit - c.pos
  {
    var (err, c') := GoToNext(dir, c);
    if NameMatches(dir.nameAt(c.pos).name, wanted, mode) || err != UNZ_OK {
    } else {
      ReadableSearchBreaks(dir, limit, c', wanted, mode);
    }
  }

  // A search stops on entry k: it matches, and the entries before it are passed over.
  ghost predicate StopsAt(dir: Directory, k: nat, wanted: seq<Byte>, mode: int)
  {
    Decodes(dir, k) && MatchesEntry(dir, k, wanted, mode) && forall i: nat :: i < k ==> PassedOver(dir, i, wanted, mode)
  }

  // A name that cannot be read is an error.
  ghost predicate Reports(dir: Directory)
  {
    forall p: nat :: dir.nameAt(p).NoInfo? ==> dir.nameAt(p).err != UNZ_OK
  }

  lemma DirectoriesReport(a: Archive)
    ensures Reports(DirectoryOf(a))
  {
    hide GetInfo;
    forall p: nat ensures DirectoryOf(a).nameAt(p).NoInfo? ==> DirectoryOf(a).nameAt(p).err != UNZ_OK {
      NameLength(a.data, p + a.byteBefore, a.ulongMax, UNZ_MAXFILENAMEINZIP);
    }
  }

  lemma {:induction false} ReachesStop(dir: Directory, limit: nat, i: nat, k: nat, wanted: seq<Byte>, mode: int)
    requires EndsBy(dir, limit) && i <= k && StopsAt(dir, k, wanted, mode)
    ensures Decodes(dir, i) && LocateFrom(dir, limit, CursorAt(dir, i), wanted, mode) == (UNZ_OK, CursorAt(dir, k))
    decreases k - i
  {
    hide NameMatches, EndsBy;
    if i == k {
    } else {
      assert PassedOver(dir, i, wanted, mode);
      assert i + 1 < k ==> PassedOver(dir, i + 1, wanted, mode);
      ReachesStop(dir, limit, i + 1, k, wanted, mode);
    }
  }

  lemma {:induction false} SuccessHasPlace(dir: Directory, limit: nat, k: nat, wanted: seq<Byte>, mode: int)
    returns (j: nat)
    requires EndsBy(dir, limit) && Reports(dir) && dir.entryAt(EntryPos(dir, k)).Some?
    requires forall i: nat :: i < k ==> PassedOver(dir, i, wanted, mode)
    requires var c := Cursor(k, EntryPos(dir, k), true, dir.entryAt(EntryPos(dir, k)).value);
             LocateFrom(dir, limit, c, wanted, mode).0 == UNZ_OK
    ensures StopsAt(dir, j, wanted, mode)
    decreases limit - EntryPos(dir, k)
  {
    hide NameMatches;
    var c := Cursor(k, EntryPos(dir, k), true, dir.entryAt(EntryPos(dir, k)).value);
    assert dir.nameAt(c.pos).Info?;
    if MatchesEntry(dir, k, wanted, mode) {
      j := k;
    } else {
      assert GoToNext(dir, c).1.pos == EntryPos(dir, k + 1);
      j := SuccessHasPlace(dir, limit, k + 1, wanted, mode);
    }
  }

  // In any directory a search succeeds exactly when some entry matches and all entries before it
  // are passed over, and then it stands on that entry.
  lemma LocateStopsAtMatch(dir: Directory, limit: nat, c: Cursor, wanted: seq<Byte>, mode: int)
    requires EndsBy(dir, limit) && Reports(dir) && c.ok && |wanted| < UNZ_MAXFILENAMEINZIP
    ensures Locate(dir, limit, c, wanted, mode).0 == UNZ_OK <==> exists k: nat :: StopsAt(dir, k, wanted, mode)
    ensures forall k: nat :: StopsAt(dir, k, wanted, mode) ==>
              Locate(dir, limit, c, wanted, mode) == (UNZ_OK, CursorAt(dir, k))
  {
    hide NameMatches, LocateFrom, PassedOver;
    forall k: nat | StopsAt(dir, k, wanted, mode)
      ensures Locate(dir, limit, c, wanted, mode) == (UNZ_OK, CursorAt(dir, k))
    {
      ReachesStop(dir, limit, 0, k, wanted, mode);
    }
    if Locate(dir, limit, c, wanted, mode).0 == UNZ_OK {
      var j := SuccessHasPlace(dir, limit, 0, wanted, mode);
    }
  }

  // So it is in every archive, whatever its bytes are.
  lemma LocateInArchive(a: Archive, c: Cursor, wanted: seq<Byte>, mode: int)
    requires c.ok && |wanted| < UNZ_MAXFILENAMEINZIP
    ensures var dir := DirectoryOf(a);
            && EndsBy(dir, |a.data|)
            && (Locate(dir, |a.data|, c, wanted, mode).0 == UNZ_OK <==> exists k: nat :: StopsAt(dir, k, wanted, mode))
            && forall k: nat :: StopsAt(dir, k, wanted, mode) ==>
                 Locate(dir, |a.data|, c, wanted, mode) == (UNZ_OK, CursorAt(dir, k))
  {
    hide DirectoryOf, Locate, StopsAt;
    DirectoriesEnd(a);
    DirectoriesReport(a);
    LocateStopsAtMatch(DirectoryOf(a), |a.data|, c, wanted, mode);
  }

  // ---------- runs ----------

  datatype Op = First | Next | LocateFile(wanted: seq<Byte>, mode: int) | GetPos | GoTo(i: nat)

  datatype Stepped = Stepped(err: int, cursor: Cursor, saved: seq<FilePos>)

  // One call with its result; saved lists the positions unzGetFilePos64 has returned so far.
  function Apply(dir: Directory, ghost limit: nat, c: Cursor, saved: seq<FilePos>, op: Op): Stepped
    requires EndsBy(dir, limit)
  {
    match op
    case First => var (err, c') := GoToFirst(dir, c); Stepped(err, c', saved)
    case Next => var (err, c') := GoToNext(dir, c); Stepped(err, c', saved)
    case LocateFile(wanted, mode) => var (err, c') := Locate(dir, limit, c, wanted, mode); Stepped(err, c', saved)
    case GetPos =>
      if c.ok then Stepped(UNZ_OK, c, saved + [FilePos(c.pos, c.numFile)])
      else Stepped(UNZ_END_OF_LIST_OF_FILE, c, saved)
    case GoTo(i) =>
      if i < |saved| then var (err, c') := GoToFilePos(dir, c, saved[i]); Stepped(err, c', saved)
      else Stepped(UNZ_PARAMERROR, c, saved)
  }

  function Run(dir: Directory, ghost limit: nat, c: Cursor, saved: seq<FilePos>, ops: seq<Op>): (Cursor, seq<FilePos>)
    requires EndsBy(dir, limit)
    decreases |ops|
  {
    if ops == [] then (c, saved)
    else
      var step := Apply(dir, limit, c, saved, ops[0]);
      Run(dir, limit, step.cursor, step.saved, ops[1..])
  }

  // Number, position and entry belong together.
  ghost predicate OnEntry(dir: Directory, c: Cursor)
  {
    c.numFile < dir.numberEntry && Decodes(dir, c.numFile) && c == CursorAt(dir, c.numFile)
  }

  ghost predicate OnEntries(dir: Directory, c: Cursor, saved: seq<FilePos>)
  {
    && OnEntry(dir, c)
    && forall i :: 0 <= i < |saved| ==>
         saved[i].numOfFile < dir.numberEntry && saved[i].posInZipDirectory == EntryPos(dir, saved[i].numOfFile)
  }

  lemma StepStaysOnEntries(dir: Directory, limit: nat, c: Cursor, saved: seq<FilePos>, op: Op)
    requires WellFormed(dir) && EndsBy(dir, limit) && OnEntries(dir, c, saved)
    ensures var step := Apply(dir, limit, c, saved, op);
            OnEntries(dir, step.cursor, step.saved)
  {
    match op
    case First =>
      FirstIsEntryZero(dir, c);
    case Next =>
      NextIsSuccessor(dir, c.numFile);
    case LocateFile(wanted, mode) =>
      if |wanted| < UNZ_MAXFILENAMEINZIP {
        var j := LocateFindsFirstMatch(dir, limit, c.numFile, wanted, mode);
      }
    case GetPos =>
    case GoTo(i) =>
      if i < |saved| {
        SavedPositionReturns(dir, c, saved[i].numOfFile);
      }
  }

  // Every state that any sequence of calls reaches after opening stands on an entry of the
  // directory, with number, position and decoded entry in agreement.
  lemma {:induction false} RunsStayOnEntries(dir: Directory, limit: nat, c: Cursor, saved: seq<FilePos>, ops: seq<Op>)
    requires WellFormed(dir) && EndsBy(dir, limit) && OnEntries(dir, c, saved)
    ensures var (c', saved') := Run(dir, limit, c, saved, ops);
            OnEntries(dir, c', saved')
    decreases |ops|
  {
    if ops == [] {
    } else {
      StepStaysOnEntries(dir, limit, c, saved, ops[0]);
      var step := Apply(dir, limit, c, saved, ops[0]);
      RunsStayOnEntries(dir, limit, step.cursor, step.saved, ops[1..]);
    }
  }
}
