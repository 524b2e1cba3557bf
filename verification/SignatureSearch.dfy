// The backward search for the end record and for the Zip64 locator.
module SignatureSearch {
  import opened Bytes
  import opened ByteStreams

  const BUFREADCOMMENT: nat := 0x400
  const MAX_BACK: nat := 0xffff

  // P K a b starts at p
  predicate SigAt(d: seq<Byte>, p: nat, a: Byte, b: Byte)
  {
    p + 4 <= |d| && d[p] == 0x50 && d[p + 1] == 0x4b && d[p + 2] == a && d[p + 3] == b
  }

  predicate InWindow(d: seq<Byte>, p: nat)
  {
    1 <= p && |d| - Min(MAX_BACK, |d|) <= p
  }

  // The naive search: step back one position at a time.
  function LastSigBelow(d: seq<Byte>, q: nat, a: Byte, b: Byte): nat
  {
    if q == 0 || !InWindow(d, q - 1) then 0
    else if SigAt(d, q - 1, a, b) then q - 1
    else LastSigBelow(d, q - 1, a, b)
  }

  function LastSig(d: seq<Byte>, a: Byte, b: Byte): nat
  {
    LastSigBelow(d, |d|, a, b)
  }

  ghost predicate IsLastSig(d: seq<Byte>, a: Byte, b: Byte, r: nat)
  {
    && (r != 0 ==> InWindow(d, r) && SigAt(d, r, a, b))
    && forall p: nat :: r < p && InWindow(d, p) ==> !SigAt(d, p, a, b)
  }

  lemma {:induction false} LastSigBelowIsLargest(d: seq<Byte>, q: nat, a: Byte, b: Byte)
    ensures var r := LastSigBelow(d, q, a, b);
            && (r != 0 ==> r < q && InWindow(d, r) && SigAt(d, r, a, b))
            && forall p: nat :: r < p < q && InWindow(d, p) ==> !SigAt(d, p, a, b)
  {
    if q != 0 && InWindow(d, q - 1) && !SigAt(d, q - 1, a, b) {
      LastSigBelowIsLargest(d, q - 1, a, b);
    }
  }

  // The naive search returns the largest signature position of the window, 0 if there is
  // none, and nothing else does.
  lemma LastSigIsTheLast(d: seq<Byte>, a: Byte, b: Byte, r: nat)
    ensures r == LastSig(d, a, b) <==> IsLastSig(d, a, b, r)
  {
    LastSigBelowIsLargest(d, |d|, a, b);
    var s := LastSig(d, a, b);
    assert IsLastSig(d, a, b, s);
  }

  // A found signature keeps its distance from the end when bytes are put in front.
  lemma LastSigShifts(pre: seq<Byte>, d: seq<Byte>, a: Byte, b: Byte)
    requires LastSig(d, a, b) != 0
    ensures LastSig(pre + d, a, b) == |pre| + LastSig(d, a, b)
  {
    var r := LastSig(d, a, b);
    LastSigIsTheLast(d, a, b, r);
    assert SigAt(pre + d, |pre| + r, a, b);
    forall p: nat | |pre| + r < p && InWindow(pre + d, p) ensures !SigAt(pre + d, p, a, b) {
      var q: nat := p - |pre|;
      assert InWindow(d, q);
      assert SigAt(pre + d, p, a, b) == SigAt(d, q, a, b);
    }
    LastSigIsTheLast(pre + d, a, b, |pre| + r);
  }

  // The last signature of a block, -1 if there is none.
  method ScanBlock(buf: array<Byte>, readSize: nat, a: Byte, b: Byte) returns (i: int)
    requires 3 <= readSize <= buf.Length
    ensures -1 <= i < readSize
    ensures 0 <= i ==> SigAt(buf[..readSize], i, a, b)
    ensures NoneAbove(buf[..readSize], i, a, b)
  {
    i := readSize - 3;
    while i > 0
      invariant 0 <= i <= readSize - 3
      invariant forall k: nat :: i <= k ==> !SigAt(buf[..readSize], k, a, b)
    {
      i := i - 1;
      if buf[i] == 0x50 && buf[i + 1] == 0x4b && buf[i + 2] == a && buf[i + 3] == b {
        return i;
      }
    }
    i := -1;
  }

  ghost predicate NoneAbove(block: seq<Byte>, i: int, a: Byte, b: Byte)
  {
    forall k: nat :: i < k ==> !SigAt(block, k, a, b)
  }

  lemma SigInBlock(d: seq<Byte>, at: nat, n: nat, k: nat, a: Byte, b: Byte)
    requires at + n <= |d|
    ensures SigAt(d[at..at + n], k, a, b) == (k + 4 <= n && SigAt(d, at + k, a, b))
  {
  }

  // No signature at or above q, positions outside the window aside.
  ghost predicate NoneFrom(d: seq<Byte>, q: int, a: Byte, b: Byte)
  {
    forall p: nat :: q <= p && InWindow(d, p) ==> !SigAt(d, p, a, b)
  }

  // The blocks overlap by four bytes: what is clean above backRead and inside the next block
  // is clean from the start of that block on.
  lemma BlocksJoin(d: seq<Byte>, from: nat, n: nat, block: seq<Byte>, i: int, clean: nat, a: Byte, b: Byte)
    requires from + n <= |d| && clean <= from + n - 3 && block == d[from..from + n]
    requires NoneFrom(d, clean, a, b)
    requires -1 <= i < n
    requires NoneAbove(block, i, a, b)
    ensures NoneFrom(d, from + i + 1, a, b)
  {
    forall p: nat | from + i + 1 <= p < clean && InWindow(d, p) ensures !SigAt(d, p, a, b) {
      var k: nat := p - from;
      SigInBlock(d, from, n, k, a, b);
    }
  }

  // One round of the search: read the block at readPos and scan it.
  method SearchBlock(stream: ByteStream, buf: array<Byte>, readPos: nat, readSize: nat, ghost clean: nat, a: Byte,
          b: Byte) returns (posFound: nat)
    requires 3 <= readSize <= buf.Length && readPos + readSize <= |stream.data|
    requires clean <= readPos + readSize - 3 && NoneFrom(stream.data, clean, a, b)
    modifies stream, buf
    ensures posFound == 0 ==> NoneFrom(stream.data, readPos, a, b)
    ensures posFound != 0 ==>
              readPos <= posFound && SigAt(stream.data, posFound, a, b) && NoneFrom(stream.data, posFound + 1, a, b)
  {
    ghost var d := stream.data;
    var r := stream.SeekSet(readPos);
    var got := stream.ReadInto(buf, 0, readSize);
    assert buf[..readSize] == d[readPos..readPos + readSize];
    var i := ScanBlock(buf, readSize, a, b);
    BlocksJoin(d, readPos, readSize, buf[..readSize], i, clean, a, b);
    posFound := 0;
    if i >= 0 {
      SigInBlock(d, readPos, readSize, i, a, b);
      posFound := readPos + i;
    }
  }

  // unz64local_SearchCentralDir with (5, 6); the first half of unz64local_SearchCentralDir64
  // with (6, 7).
  method SearchBackward(stream: ByteStream, a: Byte, b: Byte) returns (posFound: nat)
    modifies stream
    ensures posFound == LastSig(stream.data, a, b)
  {
    posFound := 0;
    var r := stream.SeekEnd();
    var sizeFile := stream.pos;
    var maxBack := MAX_BACK;
    if maxBack > sizeFile {
      maxBack := sizeFile;
    }
    var buf := new Byte[BUFREADCOMMENT + 4];
    var backRead := 4;
    ghost var d := stream.data;
    ghost var clean: nat := if |d| < 3 then 0 else |d| - 3;
    assert |d| > 4 ==> NoneFrom(d, clean, a, b);
    while backRead < maxBack
      invariant posFound == 0
      invariant backRead == 4 || 4 < backRead <= maxBack
      invariant |d| > 4 ==> clean == if backRead == 4 then |d| - 3 else |d| - backRead
      invariant |d| > 4 ==> NoneFrom(d, clean, a, b)
      decreases maxBack - backRead
    {
      if backRead + BUFREADCOMMENT > maxBack {
        backRead := maxBack;
      } else {
        backRead := backRead + BUFREADCOMMENT;
      }
      var readPos := sizeFile - backRead;
      var readSize := if BUFREADCOMMENT + 4 < sizeFile - readPos then BUFREADCOMMENT + 4 else sizeFile - readPos;
      posFound := SearchBlock(stream, buf, readPos, readSize, clean, a, b);
      clean := readPos;
      if posFound != 0 {
        break;
      }
    }
    LastSigIsTheLast(d, a, b, posFound);
  }
}
