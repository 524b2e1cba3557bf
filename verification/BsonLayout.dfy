// BSON as bytes: how large an element is, for every type, and the iterator over an object.
module BsonLayout {
  import opened Bytes
  import opened Options

  const EOO := 0
  const NUMBER_DOUBLE := 1
  const STRING := 2
  const OBJECT := 3
  const ARRAY := 4
  const BIN_DATA := 5
  const UNDEFINED := 6
  const OBJECT_ID := 7
  const BOOL := 8
  const DATE := 9
  const NULL := 10
  const REGEX := 11
  const DB_REF := 12
  const CODE := 13
  const SYMBOL := 14
  const CODE_W_SCOPE := 15
  const NUMBER_INT := 16
  const TIMESTAMP := 17
  const NUMBER_LONG := 18
  const MAX_KEY := 127
  const MIN_KEY := 255  // -1 as a char

  function I32(mem: seq<Byte>, p: nat): (x: int)
    requires p + 4 <= |mem|
    ensures 0 - TWO31 <= x < TWO31
  {
    ToInt(R32(mem, p))
  }

  // mongo::strnlen: the bytes in front of the first zero among n, or -1
  function StrNLen(mem: seq<Byte>, p: nat, n: int): (k: int)
    requires n <= 0 || p + n <= |mem|
    ensures k == -1 || (0 <= k < n && mem[p + k] == 0)
    decreases n
  {
    if n <= 0 then -1
    else if mem[p] == 0 then 0
    else
      var k := StrNLen(mem, p + 1, n - 1);
      if k == -1 then -1 else k + 1
  }

  // A size; a failed massert; or a read behind the end of memory, where nothing is promised.
  datatype Sized = Size(n: int) | Asserted(code: nat) | Unbounded

  const UNCHECKED := -1

  ghost predicate Limit(mem: seq<Byte>, p: nat, limit: int)
  {
    p < |mem| && (limit == UNCHECKED || 0 < limit <= |mem| - p)
  }

  // Field name with its terminator
  function FieldNameSize(mem: seq<Byte>, p: nat, limit: int): (r: Sized)
    requires Limit(mem, p, limit)
    ensures r.Size? ==> r.n >= 0 && p + 1 + r.n <= |mem| && (limit != UNCHECKED ==> r.n < limit)
  {
    if mem[p] == EOO then Size(0)
    else
      var k := StrNLen(mem, p + 1, if limit == UNCHECKED then |mem| - p - 1 else limit - 1);
      if k != -1 then Size(k + 1) else if limit == UNCHECKED then Unbounded else Asserted(10333)
  }

  // Bytes of a value whose type has a fixed size
  function FixedSize(t: Byte): Option<nat>
  {
    if t == EOO || t == UNDEFINED || t == NULL || t == MAX_KEY || t == MIN_KEY then Some(0)
    else if t == BOOL then Some(1)
    else if t == NUMBER_INT then Some(4)
    else if t == TIMESTAMP || t == DATE || t == NUMBER_DOUBLE || t == NUMBER_LONG then Some(8)
    else if t == OBJECT_ID then Some(12)
    else None
  }

  // Bytes that come on top of the length in front of the value, and the massert that guards it
  function Prefixed(t: Byte): Option<(nat, nat)>
  {
    if t == SYMBOL || t == CODE || t == STRING then Some((4, 10313))
    else if t == CODE_W_SCOPE then Some((0, 10314))
    else if t == DB_REF then Some((16, 10315))
    else if t == OBJECT || t == ARRAY then Some((0, 10316))
    else if t == BIN_DATA then Some((5, 10317))
    else None
  }

  // A regular expression: two strings. Where a terminator is missing, strnlen's -1 stands for
  // its length.
  function RegexSize(mem: seq<Byte>, v: nat, remain: nat, checked: bool): Sized
    requires v + remain <= |mem|
  {
    var len1 := StrNLen(mem, v, remain);
    if len1 == -1 && !checked then Unbounded
    else
      var len2 := StrNLen(mem, v + (len1 + 1), remain - len1 - 1);
      if len2 == -1 && !checked then Unbounded else Size(len1 + 1 + len2 + 1)
  }

  // Bytes of the value at v
  function ValueSize(mem: seq<Byte>, t: Byte, v: nat, remain: nat, checked: bool): Sized
    requires v + remain <= |mem|
  {
    if FixedSize(t).Some? then Size(FixedSize(t).value)
    else if Prefixed(t).Some? then
      var (extra, code) := Prefixed(t).value;
      if remain > 3 then Size(I32(mem, v) + extra) else if checked then Asserted(code) else Unbounded
    else if t == REGEX then RegexSize(mem, v, remain, checked)
    else Asserted(10320)
  }

  // BSONElement::size
  function ElementSize(mem: seq<Byte>, p: nat, limit: int): Sized
    requires Limit(mem, p, limit)
  {
    match FieldNameSize(mem, p, limit)
    case Size(k) =>
      var v := p + 1 + k;
      (match ValueSize(mem, mem[p], v, if limit == UNCHECKED then |mem| - v else limit - k - 1, limit != UNCHECKED)
       case Size(x) => Size(x + k + 1)
       case failed => failed)
    case failed => failed
  }

  lemma {:induction false} StrNLenIsLocal(mem: seq<Byte>, p: nat, other: seq<Byte>, q: nat, n: int)
    requires n <= 0 || (p + n <= |mem| && q + n <= |other| && mem[p..p + n] == other[q..q + n])
    ensures StrNLen(mem, p, n) == StrNLen(other, q, n)
    decreases n
  {
    if n <= 0 {
    } else {
      assert mem[p] == mem[p..p + n][0] == other[q..q + n][0] == other[q];
      assert mem[p + 1..p + n] == mem[p..p + n][1..] == other[q + 1..q + n];
      StrNLenIsLocal(mem, p + 1, other, q + 1, n - 1);
    }
  }

  // a bytes further on the two stretches still agree.
  lemma PartAgrees(mem: seq<Byte>, p: nat, other: seq<Byte>, q: nat, n: nat, a: nat, b: nat)
    requires p + n <= |mem| && q + n <= |other| && mem[p..p + n] == other[q..q + n] && a + b <= n
    ensures mem[p + a..p + a + b] == other[q + a..q + a + b]
  {
    SubSlice(mem, p, p + n, a, a + b);
    SubSlice(other, q, q + n, a, a + b);
  }

  lemma RegexSizeIsLocal(mem: seq<Byte>, v: nat, other: seq<Byte>, w: nat, remain: nat)
    requires v + remain <= |mem| && w + remain <= |other| && mem[v..v + remain] == other[w..w + remain]
    ensures RegexSize(mem, v, remain, true) == RegexSize(other, w, remain, true)
  {
    hide StrNLen;
    StrNLenIsLocal(mem, v, other, w, remain);
    var n := StrNLen(mem, v, remain) + 1;
    if remain - n > 0 {
      PartAgrees(mem, v, other, w, remain, n, remain - n);
    }
    StrNLenIsLocal(mem, v + n, other, w + n, remain - n);
  }

  lemma ValueSizeIsLocal(mem: seq<Byte>, t: Byte, v: nat, other: seq<Byte>, w: nat, remain: nat)
    requires v + remain <= |mem| && w + remain <= |other| && mem[v..v + remain] == other[w..w + remain]
    ensures ValueSize(mem, t, v, remain, true) == ValueSize(other, t, w, remain, true)
  {
    hide RegexSize, R32, FixedSize, Prefixed;
    RegexSizeIsLocal(mem, v, other, w, remain);
    if remain > 3 {
      PartAgrees(mem, v, other, w, remain, 0, 4);
      assert R32(mem, v) == R32(other, w) by {
        ReadSlice(mem, v, other, w, 4, 0);
      }
    }
  }

  lemma FieldNameSizeIsLocal(mem: seq<Byte>, p: nat, other: seq<Byte>, q: nat, limit: int)
    requires Limit(mem, p, limit) && Limit(other, q, limit) && limit != UNCHECKED
    requires mem[p..p + limit] == other[q..q + limit]
    ensures FieldNameSize(mem, p, limit) == FieldNameSize(other, q, limit) != Unbounded
  {
    hide StrNLen;
    assert mem[p] == mem[p..p + limit][0] == other[q..q + limit][0] == other[q];
    PartAgrees(mem, p, other, q, limit, 1, limit - 1);
    StrNLenIsLocal(mem, p + 1, other, q + 1, limit - 1);
  }

  lemma CheckedValueIsBounded(mem: seq<Byte>, t: Byte, v: nat, remain: nat)
    requires v + remain <= |mem|
    ensures ValueSize(mem, t, v, remain, true) != Unbounded
  {
    hide StrNLen;
  }

  // With a limit nothing is read behind it: the size, or the failed assertion, depends on no other
  // bytes than those in front of the limit, wherever they stand.
  lemma CheckedSizeIsBounded(mem: seq<Byte>, p: nat, other: seq<Byte>, q: nat, limit: int)
    requires Limit(mem, p, limit) && Limit(other, q, limit) && limit != UNCHECKED
    requires mem[p..p + limit] == other[q..q + limit]
    ensures ElementSize(mem, p, limit) == ElementSize(other, q, limit) != Unbounded
  {
    hide ValueSize, FieldNameSize;
    FieldNameSizeIsLocal(mem, p, other, q, limit);
    assert mem[p] == mem[p..p + limit][0] == other[q..q + limit][0] == other[q];
    match FieldNameSize(mem, p, limit)
    case Size(k) =>
      PartAgrees(mem, p, other, q, limit, 1 + k, limit - k - 1);
      ValueSizeIsLocal(mem, mem[p], p + 1 + k, other, q + 1 + k, limit - k - 1);
      CheckedValueIsBounded(mem, mem[p], p + 1 + k, limit - k - 1);
    case _ =>
  }

  // ---------- the program ----------

  // A C string's length inside a known stretch of memory
  method StrNLenLoop(mem: seq<Byte>, s: nat, n: int) returns (r: int)
    requires n <= 0 || s + n <= |mem|
    ensures r == StrNLen(mem, s, n)
  {
    var i := 0;
    while i < n
      invariant 0 <= i && (n > 0 ==> i <= n)
      invariant StrNLen(mem, s, n) ==
                (var rest := if i < n then StrNLen(mem, s + i, n - i) else -1; if rest == -1 then -1 else i + rest)
    {
      if mem[s + i] == 0 {
        return i;
      }
      i := i + 1;
    }
    r := -1;
  }

  // An element with its two caches; -1 is a size not yet known.
  class BSONElement {
    const mem: seq<Byte>
    const data: nat
    var fieldNameSize: int
    var totalSize: int

    // The caches never hold anything but what size computes for some limit.
    ghost predicate Caches(limit: int)
      reads this
      requires Limit(mem, data, limit)
    {
      && (fieldNameSize == -1 || FieldNameSize(mem, data, limit) == Size(fieldNameSize))
      && (totalSize >= 0 ==> ElementSize(mem, data, limit) == Size(totalSize))
    }

    constructor (mem: seq<Byte>, d: nat)
      requires d < |mem|
      ensures this.mem == mem && data == d && fieldNameSize == -1 && totalSize == -1
    {
      this.mem, data, fieldNameSize, totalSize := mem, d, -1, -1;
    }

    // The constructor's scan of the field name when a limit is given
    method ScanName(maxLen: int) returns (failed: Option<Sized>)
      requires Limit(mem, data, maxLen) && Caches(maxLen)
      modifies this`fieldNameSize
      ensures Caches(maxLen)
      ensures failed == (match FieldNameSize(mem, data, maxLen) case Size(_) => None case other => Some(other))
      ensures failed == None ==> FieldNameSize(mem, data, maxLen) == Size(fieldNameSize)
    {
      if mem[data] == EOO {
        fieldNameSize := 0;
        return None;
      }
      var size := StrNLenLoop(mem, data + 1, if maxLen == UNCHECKED then |mem| - data - 1 else maxLen - 1);
      if size == -1 {
        return Some(if maxLen == UNCHECKED then Unbounded else Asserted(10333));
      }
      fieldNameSize := size + 1;
      failed := None;
    }

    // size, with the caching of totalSize
    method ComputeSize(maxLen: int) returns (r: Sized)
      requires Limit(mem, data, maxLen) && Caches(maxLen)
      modifies this
      ensures Caches(maxLen) && r == ElementSize(mem, data, maxLen)
      ensures r.Size? && r.n >= 0 ==> totalSize == r.n
    {
      if totalSize >= 0 {
        return Size(totalSize);
      }
      var failed := ScanName(maxLen);
      if failed.Some? {
        return failed.value;
      }
      var v := data + 1 + fieldNameSize;
      var remain := if maxLen == UNCHECKED then |mem| - v else maxLen - fieldNameSize - 1;
      var x := ValueSize(mem, mem[data], v, remain, maxLen != UNCHECKED);
      if !x.Size? {
        return x;
      }
      totalSize := x.n + fieldNameSize + 1;
      r := Size(totalSize);
    }
  }

  // The iterator over the object at start, which ends at theEnd
  class BSONObjIterator {
    const mem: seq<Byte>
    var pos: int
    const theEnd: nat

    constructor (mem: seq<Byte>, start: nat, end: nat)
      requires end <= |mem|
      ensures this.mem == mem && pos == start + 4 && theEnd == end
    {
      this.mem, pos, theEnd := mem, start + 4, end;
    }

    method More() returns (b: bool)
      requires 0 <= pos && theEnd <= |mem|
      ensures b == (pos < theEnd && mem[pos] != 0)
    {
      b := pos < theEnd && mem[pos] != 0;
    }

    method MoreWithEOO() returns (b: bool)
      ensures b == (pos < theEnd)
    {
      b := pos < theEnd;
    }

    // next: the element at the cursor, which moves behind it
    method Next(checkEnd: bool) returns (e: BSONElement, r: Sized)
      requires 0 <= pos < theEnd <= |mem|
      modifies this`pos
      ensures fresh(e) && e.mem == mem && e.data == old(pos)
      ensures r == ElementSize(mem, old(pos), if checkEnd then theEnd - old(pos) else UNCHECKED)
      ensures r.Size? ==> pos == old(pos) + r.n && (r.n >= 0 ==> e.totalSize == r.n)
    {
      e := new BSONElement(mem, pos);
      r := e.ComputeSize(if checkEnd then theEnd - pos else UNCHECKED);
      if r.Size? {
        pos := pos + r.n;
      }
    }
  }
}
