// Repairing a repaired archive changes nothing.
module RepairTwice {
  import opened Bytes
  import opened ZipFormat
  import opened Mztools

  // Two files that agree up to n
  ghost predicate AgreeTo(d: seq<Byte>, e: seq<Byte>, n: nat)
  {
    n <= |d| && n <= |e| && e[..n] == d[..n]
  }

  lemma AgreeOnSlice(d: seq<Byte>, e: seq<Byte>, n: nat, p: nat, q: nat)
    requires AgreeTo(d, e, n) && p <= q <= n
    ensures e[p..q] == d[p..q]
  {
    assert e[p..q] == e[..n][p..q] && d[p..q] == d[..n][p..q];
  }

  lemma HeadersAgree(d: seq<Byte>, e: seq<Byte>, n: nat, p: nat)
    requires AgreeTo(d, e, n) && p + SIZEZIPLOCALHEADER <= n
    ensures R32(e, p) == R32(d, p) && FieldsAt(e, p) == FieldsAt(d, p)
  {
    assert forall i :: 0 <= i < n ==> e[..n][i] == e[i] && d[..n][i] == d[i];
    assert forall i :: 0 <= i < n ==> e[i] == d[i];
  }

  // A record only depends on its own bytes.
  lemma RecordsAgree(d: seq<Byte>, e: seq<Byte>, n: nat, p: nat)
    requires Scan(d, p).Record? && Scan(d, p).next <= n && AgreeTo(d, e, n)
    ensures Scan(e, p) == Scan(d, p)
    ensures CentralEntry(e, p) == CentralEntry(d, p) && RecordData(e, p) == RecordData(d, p)
  {
    HeadersAgree(d, e, n, p);
    var f := FieldsAt(d, p);
    AgreeOnSlice(d, e, n, p + SIZEZIPLOCALHEADER, p + SIZEZIPLOCALHEADER + f.nameSize + f.extraSize);
  }

  lemma {:induction false} SurveysAgree(d: seq<Byte>, e: seq<Byte>, p: nat)
    requires SurveyFrom(d, p).stop == NoRecord && AgreeTo(d, e, SurveyFrom(d, p).end)
    requires Scan(e, SurveyFrom(d, p).end) == NoRecord
    ensures SurveyFrom(e, p) == SurveyFrom(d, p)
    decreases |d| - p
  {
    if Scan(d, p).Record? {
      RecordsAgree(d, e, SurveyFrom(d, p).end, p);
      SurveysAgree(d, e, Scan(d, p).next);
    }
  }

  lemma {:induction false} DirectoriesAgree(d: seq<Byte>, e: seq<Byte>, n: nat, starts: seq<nat>)
    requires AllRecords(d, starts) && AgreeTo(d, e, n)
    requires forall i :: 0 <= i < |starts| ==> Scan(d, starts[i]).next <= n
    ensures AllRecords(e, starts)
    ensures CentralDirectory(e, starts) == CentralDirectory(d, starts) && DataBytes(e, starts) == DataBytes(d, starts)
  {
    forall i | 0 <= i < |starts| ensures Scan(e, starts[i]).Record? {
      RecordsAgree(d, e, n, starts[i]);
    }
    if starts == [] {
    } else {
      RecordsAgree(d, e, n, starts[0]);
      DirectoriesAgree(d, e, n, starts[1..]);
    }
  }

  // Neither a directory entry nor the end record is taken for a local header.
  lemma DirectoryIsNoRecord(d: seq<Byte>)
    requires Repair(d).Repaired?
    ensures Scan(Repair(d).output, SurveyFrom(d, 0).end) == NoRecord
  {
    var s := SurveyFrom(d, 0);
    var cd := CentralDirectory(d, s.starts);
    var out := Repair(d).output;
    if s.starts != [] {
      var h := CentralHeader(FieldsAt(d, s.starts[0]), s.starts[0]);
      assert out[s.end..s.end + 4] == cd[..4] == h[..4] == W32(CENTRAL_MAGIC);
      WrittenFieldReads32(out, s.end, CENTRAL_MAGIC);
    }
  }

  // For every input on which unzRepair succeeds, repairing its output gives back the identical
  // bytes, entry count and recovered-byte count. In C this holds up to 2 GB, where the counters
  // of unzRepair overflow.
  lemma RepairIsIdempotent(d: seq<Byte>)
    requires Repair(d).Repaired?
    ensures Repair(Repair(d).output) == Repair(d)
  {
    var s, out := SurveyFrom(d, 0), Repair(d).output;
    assert AgreeTo(d, out, s.end);
    DirectoryIsNoRecord(d);
    SurveysAgree(d, out, 0);
    DirectoriesAgree(d, out, s.end, s.starts);
    assert out[..s.end] == d[..s.end];
  }
}
