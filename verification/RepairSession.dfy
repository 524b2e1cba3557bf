// Whole sessions with a repaired archive.
module RepairSessions {
  import opened Bytes
  import opened ByteStreams
  import opened Crc
  import opened ZipFormat
  import opened Directories
  import opened StoredRead
  import opened EntryReaders
  import opened Sessions
  import opened StoredSessions
  import opened RepairOpens
  import opened RepairRoundTrip

  // next, k times
  function Nexts(k: nat): (calls: seq<Call>)
    ensures |calls| == k
  {
    if k == 0 then [] else Nexts(k - 1) + [Move(Next)]
  }

  // first and k times next
  function Walk(k: nat): seq<Call>
  {
    [Move(First)] + Nexts(k)
  }

  // k + 1 calls that succeeded
  function Successes(k: nat): seq<Reply>
  {
    seq(k + 1, _ => Returned(UNZ_OK))
  }

  // From anywhere the walk leads to the k-th entry of a directory that can be enumerated.
  lemma {:induction false} WalkReaches(a: Archive, step: CrcStep, s: Session, n: nat, k: nat)
    requires Enumerates(DirectoryOf(a), n) && k < n
    ensures Decodes(DirectoryOf(a), k)
    ensures RunSession(a, step, s, Walk(k)) == (s.(cursor := CursorAt(DirectoryOf(a), k)), Successes(k))
    decreases k
  {
    hide DirectoryOf, GoToFirst, GoToNext, EntryPos;
    var dir := DirectoryOf(a);
    DirectoriesEnd(a);
    assert Decodes(dir, k);
    if k == 0 {
      assert Walk(0) == [Move(First)];
      assert GoToFirst(dir, s.cursor) == (UNZ_OK, CursorAt(dir, 0));
      assert Successes(0) == [Returned(UNZ_OK)];
      RunOne(a, step, s, Move(First));
    } else {
      WalkReaches(a, step, s, n, k - 1);
      var mid := s.(cursor := CursorAt(dir, k - 1));
      assert k - 1 + 1 < n && GoToNext(dir, CursorAt(dir, k - 1)) == (UNZ_OK, CursorAt(dir, k - 1 + 1));
      assert Walk(k) == Walk(k - 1) + [Move(Next)];
      RunOne(a, step, mid, Move(Next));
      RunJoins(a, step, s, Walk(k - 1), [Move(Next)]);
      assert Successes(k - 1) + [Returned(UNZ_OK)] == Successes(k);
    }
  }

  // Stored, with its sizes as they are
  predicate Stored(r: LocalFile)
  {
    r.method_ == 0 && FieldsOf(r).compressed == FieldsOf(r).uncompressed
  }

  lemma OpensItself(d: seq<Byte>, ulongMax: nat)
    ensures OpenArchive(d, ulongMax).Some? ==> OpenArchive(d, ulongMax).value.data == d
  {
    hide SearchCentralDir64, Short, Long, Long64;
  }

  lemma ListedEntry(dir: Directory, k: nat, r: LocalFile, start: nat)
    requires Lists(dir, k, r, start)
    ensures Decodes(dir, k) && CursorAt(dir, k).ok && CursorAt(dir, k).entry == EntryFor(FieldsOf(r), start)
  {
    hide EntryFor, FieldsOf;
  }

  lemma FieldsOfStored(r: LocalFile)
    requires Stored(r)
    ensures var f := FieldsOf(r);
            && f.method_ == 0 && f.compressed == f.uncompressed && f.crc == r.crc
            && forall start: nat ::
                 EntryFor(f, start).info.method_ == 0 && EntryFor(f, start).offsetCurfile == start
  {
  }

  // Files written as local records, followed by anything, repaired and opened: going to the k-th
  // entry from anywhere, opening it, any reads and closing deal out the data of the k-th file in
  // order, with the verdict of its recorded crc.
  lemma FileReadsBack(rs: seq<LocalFile>, tail: seq<Byte>, k: nat, ulongMax: nat, step: CrcStep, s: Session,
          lens: seq<nat>)
    requires Recoverable(rs, tail) && Unambiguous(rs, ulongMax) && k < |rs| && Stored(rs[k])
    ensures OpenArchive(RepairedFile(rs), ulongMax).Some?
    ensures var a := OpenArchive(RepairedFile(rs), ulongMax).value;
            var (_, replies) := RunSession(a, step, s, Walk(k) + OpenReadClose(false, lens));
            && |replies| == k + |lens| + 3
            && replies[..k + 2] == Successes(k + 1)
            && Deals(rs[k].data, 0, lens, replies[k + 2..k + |lens| + 2])
            && Dealt(replies[k + 2..k + |lens| + 2]) == rs[k].data[..Min(|rs[k].data|, Sum(lens))]
            && replies[k + |lens| + 2] == CloseReply(false, rs[k].data, Sum(lens), rs[k].crc, step)
  {
    hide Recoverable, Unambiguous, RunSession, Enumerates, Lists, OpenArchive, RepairedFile, EncodeAll, Handed,
        Coherent, LocalVarSize, OpenedState, DirectoryOf, Deals, CloseReply, Walk, OpenReadClose, EntryFor, FieldsOf,
        Dealt, Sum;
    FilesSurviveRepair(rs, tail, ulongMax);
    ContentsSurviveRepair(rs, tail, k, step);
    var a := OpenArchive(RepairedFile(rs), ulongMax).value;
    OpensItself(RepairedFile(rs), ulongMax);
    WalkReaches(a, step, s, |rs|, k);
    var at := s.(cursor := CursorAt(DirectoryOf(a), k));
    ListedEntry(DirectoryOf(a), k, rs[k], |EncodeAll(rs[..k])|);
    FieldsOfStored(rs[k]);
    EntryReadsBack(a, step, at, false, rs[k].data, rs[k].crc, lens);
    RunJoins(a, step, s, Walk(k), OpenReadClose(false, lens));
    var (_, replies) := RunSession(a, step, at, OpenReadClose(false, lens));
    var all := Successes(k) + replies;
    assert all[..k + 2] == Successes(k + 1);
    assert all[k + 2..k + |lens| + 2] == replies[1..|lens| + 1];
    DealsOut(rs[k].data, 0, lens, replies[1..|lens| + 1]);
  }
}
