// The seekable input stream under unzip.c: a byte sequence with a cursor.
// Seeking past the end succeeds; reading there delivers nothing.
module ByteStreams {
  import opened Bytes

  const UNZ_OK := 0
  const UNZ_EOF := 0
  const UNZ_ERRNO := -1
  const UNZ_END_OF_LIST_OF_FILE := -100
  const UNZ_PARAMERROR := -102
  const UNZ_BADZIPFILE := -103
  const UNZ_CRCERROR := -105

  // The byte unz64local_getByte leaves in *pi: at end of file it reports success
  // (UNZ_EOF is UNZ_OK) and keeps the previous value.
  function StreamByte(d: seq<Byte>, p: nat, prev: Byte): Byte
  {
    if p < |d| then d[p] else prev
  }

  // Cursor after asking for n bytes at p.
  function Adv(d: seq<Byte>, p: nat, n: nat): nat
  {
    if p >= |d| then p else Min(p + n, |d|)
  }

  function Delivered(d: seq<Byte>, p: nat, n: nat): seq<Byte>
  {
    if p >= |d| then [] else d[p..Min(p + n, |d|)]
  }

  function Carried(d: seq<Byte>, p: nat, prev: Byte): Byte
  {
    StreamByte(d, p + 1, StreamByte(d, p, prev))
  }

  function Pair(d: seq<Byte>, p: nat, prev: Byte): (x: nat)
    ensures x < TWO16
  {
    StreamByte(d, p, prev) + 256 * Carried(d, p, prev)
  }

  function Quad(d: seq<Byte>, p: nat, prev: Byte): (x: nat)
    ensures x < TWO32
  {
    Pair(d, p, prev) + TWO16 * Pair(d, p + 2, Carried(d, p, prev))
  }

  // What getShort, getLong and getLong64 store, for any position, truncated fields included.
  function Short(d: seq<Byte>, p: nat): (x: nat)
    ensures x < TWO16
  {
    Pair(d, p, 0)
  }

  function Long(d: seq<Byte>, p: nat): (x: nat)
    ensures x < TWO32
  {
    Quad(d, p, 0)
  }

  function Long64(d: seq<Byte>, p: nat): (x: nat)
    ensures x < TWO64
  {
    Quad(d, p, 0) + TWO32 * Quad(d, p + 4, Carried(d, p + 2, Carried(d, p, 0)))
  }

  // A field that lies inside the file is read exactly; one past its end reads 0.
  lemma FieldInside(d: seq<Byte>, p: nat)
    ensures p + 2 <= |d| ==> Short(d, p) == R16(d, p)
    ensures p + 4 <= |d| ==> Long(d, p) == R32(d, p)
    ensures p >= |d| ==> Short(d, p) == 0 && Long(d, p) == 0
  {
  }

  // Fields are little-endian.
  lemma FieldsInBytes(d: seq<Byte>, p: nat)
    ensures p + 2 <= |d| ==> Short(d, p) == (d[p] as nat) + 0x100 * (d[p + 1] as nat)
    ensures p + 4 <= |d| ==> Long(d, p) == (d[p] as nat) + 0x100 * (d[p + 1] as nat) + 0x1_0000 * (d[p + 2] as nat)
                                           + 0x100_0000 * (d[p + 3] as nat)
    ensures p + 8 <= |d| ==> Long64(d, p) == Long(d, p) + 0x1_0000_0000 * Long(d, p + 4)
  {
  }

  // A field cut by the end of file repeats its last byte instead of failing.
  lemma CutFieldRepeatsLastByte(d: seq<Byte>, p: nat)
    requires p + 1 == |d|
    ensures Short(d, p) == 0x101 * (d[p] as nat) && Long(d, p) == 0x1010101 * (d[p] as nat)
  {
  }

  // Reading is insensitive to anything put in front of the file.
  lemma PairShifts(pre: seq<Byte>, d: seq<Byte>, p: nat, prev: Byte)
    ensures Pair(pre + d, |pre| + p, prev) == Pair(d, p, prev)
    ensures Carried(pre + d, |pre| + p, prev) == Carried(d, p, prev)
  {
  }

  // The field k bytes behind p
  lemma FieldShifts(pre: seq<Byte>, d: seq<Byte>, p: nat, k: nat)
    ensures Short(pre + d, |pre| + p + k) == Short(d, p + k)
    ensures Long(pre + d, |pre| + p + k) == Long(d, p + k)
    ensures Long64(pre + d, |pre| + p + k) == Long64(d, p + k)
  {
    var q := p + k;
    assert |pre| + p + k == |pre| + q;
    PairShifts(pre, d, q, 0);
    var c := Carried(d, q, 0);
    PairShifts(pre, d, q + 2, c);
    var c2 := Carried(d, q + 2, c);
    PairShifts(pre, d, q + 4, c2);
    PairShifts(pre, d, q + 6, Carried(d, q + 4, c2));
  }

  class ByteStream {
    const data: seq<Byte>
    var pos: nat

    constructor (data: seq<Byte>)
      ensures this.data == data && pos == 0
    {
      this.data := data;
      pos := 0;
    }

    method SeekSet(offset: nat) returns (r: int)
      modifies this
      ensures r == 0 && pos == offset
    {
      pos := offset;
      r := 0;
    }

    method SeekEnd() returns (r: int)
      modifies this
      ensures r == 0 && pos == |data|
    {
      pos := |data|;
      r := 0;
    }

    // fseek relative to the cursor fails, moving nothing, if it would leave the file at the front.
    method SeekCur(delta: int) returns (r: int)
      modifies this
      ensures old(pos) + delta >= 0 ==> r == 0 && pos == old(pos) + delta
      ensures old(pos) + delta < 0 ==> r == -1 && pos == old(pos)
    {
      if pos + delta < 0 {
        return -1;
      }
      pos := pos + delta;
      r := 0;
    }

    // fread of n bytes to buf[at..]
    method ReadInto(buf: array<Byte>, at: nat, n: nat) returns (got: nat)
      requires at + n <= buf.Length
      modifies this, buf
      ensures pos == Adv(data, old(pos), n)
      ensures got == |Delivered(data, old(pos), n)|
      ensures buf[..] == old(buf[..at]) + Delivered(data, old(pos), n) + old(buf[at + got..])
    {
      got := if pos >= |data| then 0 else Min(n, |data| - pos);
      var i := 0;
      while i < got
        invariant 0 <= i <= got && pos == old(pos)
        invariant forall k :: at <= k < at + i ==> buf[k] == data[pos + k - at]
        invariant forall k :: 0 <= k < at || at + i <= k < buf.Length ==> buf[k] == old(buf[k])
      {
        buf[at + i] := data[pos + i];
        i := i + 1;
      }
      ghost var now, was, out := buf[..], old(buf[..]), Delivered(data, pos, n);
      assert now[..at] == was[..at] && now[at..at + got] == out && now[at + got..] == was[at + got..];
      assert now == now[..at] + now[at..at + got] + now[at + got..];
      pos := pos + got;
    }

    // This stream never reports ferror, so every read returns UNZ_OK or UNZ_EOF, which are equal.
    method GetByte(prev: Byte) returns (i: Byte)
      modifies this
      ensures i == StreamByte(data, old(pos), prev)
      ensures pos == Adv(data, old(pos), 1)
    {
      i := prev;
      if pos < |data| {
        i := data[pos];
        pos := pos + 1;
      }
    }

    // The n-th byte after start; several fields read in a row share one start.
    method GetShort(ghost start: nat, ghost n: nat) returns (x: nat)
      requires pos == Adv(data, start, n)
      modifies this
      ensures x == Short(data, start + n)
      ensures pos == Adv(data, start, n + 2)
    {
      var i := GetByte(0);
      x := i;
      i := GetByte(i);
      x := x + 0x100 * (i as nat);
    }

    method GetLong(ghost start: nat, ghost n: nat) returns (x: nat)
      requires pos == Adv(data, start, n)
      modifies this
      ensures x == Long(data, start + n)
      ensures pos == Adv(data, start, n + 4)
    {
      var last: Byte;
      x, last := GetFour(0);
    }

    method GetLong64(ghost start: nat, ghost n: nat) returns (x: nat)
      requires pos == Adv(data, start, n)
      modifies this
      ensures x == Long64(data, start + n)
      ensures pos == Adv(data, start, n + 8)
    {
      var low, last := GetFour(0);
      var high, _ := GetFour(last);
      x := low + TWO32 * high;
    }

    // Four getByte calls that share the variable i.
    method GetFour(prev: Byte) returns (x: nat, i: Byte)
      modifies this
      ensures x == Quad(data, old(pos), prev)
      ensures i == Carried(data, old(pos) + 2, Carried(data, old(pos), prev))
      ensures pos == Adv(data, old(pos), 4)
    {
      i := GetByte(prev);
      x := i;
      i := GetByte(i);
      x := x + 0x100 * (i as nat);
      i := GetByte(i);
      x := x + 0x1_0000 * (i as nat);
      i := GetByte(i);
      x := x + 0x100_0000 * (i as nat);
    }
  }
}
