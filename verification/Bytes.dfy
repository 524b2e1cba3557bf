// Bytes, and the little-endian fields of the zip and BSON formats.
module Bytes {

  type Byte = b: int | 0 <= b < 256

  const TWO16: nat := 0x1_0000
  const TWO31: nat := 0x8000_0000
  const TWO32: nat := 0x1_0000_0000
  const TWO64: nat := 0x1_0000_0000_0000_0000

  function Min(a: int, b: int): (m: int)
    ensures m <= a && m <= b && (m == a || m == b)
  {
    if a <= b then a else b
  }

  // READ_16 and READ_32 of mztools.c
  function R16(d: seq<Byte>, p: nat): (x: nat)
    requires p + 2 <= |d|
    ensures x < TWO16
  {
    d[p] as nat + 256 * (d[p + 1] as nat)
  }

  function R32(d: seq<Byte>, p: nat): (x: nat)
    requires p + 4 <= |d|
    ensures x < TWO32
  {
    R16(d, p) + TWO16 * R16(d, p + 2)
  }

  // unsigned int assigned to int
  function ToInt(x: nat): int
    requires x < TWO32
  {
    if x < TWO31 then x else x - TWO32
  }

  // WRITE_16 and WRITE_32 of mztools.c: the low 16 or 32 bits of n
  function W16(n: nat): (s: seq<Byte>)
    ensures |s| == 2
  {
    [n % 256, n / 256 % 256]
  }

  function W32(n: nat): (s: seq<Byte>)
    ensures |s| == 4
  {
    W16(n % TWO16) + W16(n / TWO16)
  }

  // A written field reads back as its low bits, wherever it stands.
  lemma WrittenFieldReads16(d: seq<Byte>, p: nat, n: nat)
    requires p + 2 <= |d| && d[p..p + 2] == W16(n)
    ensures R16(d, p) == n % TWO16
  {
    assert d[p] == d[p..p + 2][0] && d[p + 1] == d[p..p + 2][1];
  }

  lemma WrittenFieldReads32(d: seq<Byte>, p: nat, n: nat)
    requires p + 4 <= |d| && d[p..p + 4] == W32(n)
    ensures R32(d, p) == n % TWO32
  {
    hide W16, R16;
    assert d[p..p + 2] == d[p..p + 4][..2] == W16(n % TWO16);
    assert d[p + 2..p + 4] == d[p..p + 4][2..] == W16(n / TWO16);
    WrittenFieldReads16(d, p, n % TWO16);
    WrittenFieldReads16(d, p + 2, n / TWO16);
  }

  lemma SubSlice<T>(s: seq<T>, a: nat, b: nat, i: nat, j: nat)
    requires a <= b <= |s| && i <= j <= b - a
    ensures s[a..b][i..j] == s[a + i..a + j]
  {
    var inner, outer := s[a..b][i..j], s[a + i..a + j];
    assert forall k :: 0 <= k < |inner| ==> inner[k] == outer[k];
    assert inner == outer;
  }

  lemma SameField16(d: seq<Byte>, p: nat, e: seq<Byte>, q: nat)
    requires p + 2 <= |d| && q + 2 <= |e| && d[p..p + 2] == e[q..q + 2]
    ensures R16(d, p) == R16(e, q)
  {
    assert d[p] == d[p..p + 2][0] && d[p + 1] == d[p..p + 2][1];
    assert e[q] == e[q..q + 2][0] && e[q + 1] == e[q..q + 2][1];
  }

  // Reading a field only looks at its own bytes.
  lemma ReadSlice(d: seq<Byte>, p: nat, e: seq<Byte>, q: nat, n: nat, k: nat)
    requires p + n <= |d| && q + n <= |e| && d[p..p + n] == e[q..q + n]
    ensures k + 2 <= n ==> R16(d, p + k) == R16(e, q + k)
    ensures k + 4 <= n ==> R32(d, p + k) == R32(e, q + k)
  {
    if k + 2 <= n {
      SubSlice(d, p, p + n, k, k + 2);
      SubSlice(e, q, q + n, k, k + 2);
      SameField16(d, p + k, e, q + k);
    }
    if k + 4 <= n {
      SubSlice(d, p, p + n, k + 2, k + 4);
      SubSlice(e, q, q + n, k + 2, k + 4);
      SameField16(d, p + k + 2, e, q + k + 2);
    }
  }

  // The bytes e stand in d at p.
  ghost predicate At(d: seq<Byte>, p: nat, e: seq<Byte>)
  {
    p + |e| <= |d| && d[p..p + |e|] == e
  }

  lemma AtSplits(d: seq<Byte>, p: nat, a: seq<Byte>, b: seq<Byte>)
    requires At(d, p, a + b)
    ensures At(d, p, a) && At(d, p + |a|, b)
  {
    SubSlice(d, p, p + |a + b|, 0, |a|);
    SubSlice(d, p, p + |a + b|, |a|, |a + b|);
  }
}
