// Comparison of file names (strcmpcasenosensitive_internal, unzStringFileNameCompare).
// A C string is the memory it points to: everything up to the first NUL counts.
module FileNames {
  import opened Bytes

  // unix builds of unzip.c leave CASESENSITIVITYDEFAULT_NO undefined
  const CASESENSITIVITYDEFAULTVALUE := 1

  function CString(mem: seq<Byte>): (s: seq<Byte>)
    ensures 0 !in s && s <= mem
    ensures s == mem || (|s| < |mem| && mem[|s|] == 0)
  {
    if mem == [] || mem[0] == 0 then [] else [mem[0]] + CString(mem[1..])
  }

  // char is signed: bytes from 128 on sort before the others
  function SignedChar(b: Byte): int
  {
    if b < 128 then b else (b as int) - 256
  }

  function ToUpper(c: int): int
  {
    if 'a' as int <= c <= 'z' as int then c - 0x20 else c
  }

  // What two characters are compared by: strcmp compares unsigned bytes.
  function Key(b: Byte, caseless: bool): int
  {
    if caseless then ToUpper(SignedChar(b)) else b
  }

  function Keys(s: seq<Byte>, caseless: bool): (k: seq<int>)
    ensures |k| == |s|
  {
    seq(|s|, i requires 0 <= i < |s| => Key(s[i], caseless))
  }

  function Compare(s: seq<Byte>, t: seq<Byte>, caseless: bool): (r: int)
    ensures -1 <= r <= 1
  {
    if s == [] then (if t == [] then 0 else -1)
    else if t == [] then 1
    else if Key(s[0], caseless) < Key(t[0], caseless) then -1
    else if Key(s[0], caseless) > Key(t[0], caseless) then 1
    else Compare(s[1..], t[1..], caseless)
  }

  // Zero means equal up to the chosen folding.
  lemma {:induction false} CompareZero(s: seq<Byte>, t: seq<Byte>, caseless: bool)
    ensures Compare(s, t, caseless) == 0 <==> Keys(s, caseless) == Keys(t, caseless)
  {
    var k, l := Keys(s, caseless), Keys(t, caseless);
    if s != [] && t != [] && Key(s[0], caseless) == Key(t[0], caseless) {
      CompareZero(s[1..], t[1..], caseless);
      assert k == [k[0]] + Keys(s[1..], caseless);
      assert l == [l[0]] + Keys(t[1..], caseless);
      assert Keys(s[1..], caseless) == k[1..] && Keys(t[1..], caseless) == l[1..];
    } else if s != [] && t != [] {
      assert k[0] != l[0];
    }
  }

  // Both comparisons are total orders on the folded names.
  lemma {:induction false} CompareAntisymmetric(s: seq<Byte>, t: seq<Byte>, caseless: bool)
    ensures Compare(t, s, caseless) == -Compare(s, t, caseless)
  {
    if s != [] && t != [] {
      CompareAntisymmetric(s[1..], t[1..], caseless);
    }
  }

  lemma {:induction false} CompareTransitive(s: seq<Byte>, t: seq<Byte>, u: seq<Byte>, caseless: bool)
    requires Compare(s, t, caseless) <= 0 && Compare(t, u, caseless) <= 0
    ensures Compare(s, u, caseless) <= 0
    ensures Compare(s, u, caseless) == 0 ==> Compare(s, t, caseless) == 0 && Compare(t, u, caseless) == 0
  {
    if s != [] && t != [] && u != [] && Key(s[0], caseless) == Key(t[0], caseless) == Key(u[0], caseless) {
      CompareTransitive(s[1..], t[1..], u[1..], caseless);
    }
  }

  // The comparison of two memories stops inside both.
  predicate Comparable(m1: seq<Byte>, m2: seq<Byte>)
  {
    var stop := Min(|CString(m1)|, |CString(m2)|);
    stop < |m1| && stop < |m2|
  }

  // strcmp and its caseless twin walk both memories until a NUL or a difference.
  method CompareMemory(m1: seq<Byte>, m2: seq<Byte>, caseless: bool) returns (r: int)
    requires Comparable(m1, m2)
    ensures r == Compare(CString(m1), CString(m2), caseless)
  {
    hide Key;
    var i := 0;
    while true
      invariant i <= |m1| && i <= |m2|
      invariant Comparable(m1[i..], m2[i..])
      invariant Compare(CString(m1), CString(m2), caseless) == Compare(CString(m1[i..]), CString(m2[i..]), caseless)
      decreases |m1| - i
    {
      var c1, c2 := Key(m1[i], caseless), Key(m2[i], caseless);
      if m1[i] == 0 {
        return if m2[i] == 0 then 0 else -1;
      }
      if m2[i] == 0 {
        return 1;
      }
      if c1 < c2 {
        return -1;
      }
      if c1 > c2 {
        return 1;
      }
      assert m1[i..][1..] == m1[i + 1..] && m2[i..][1..] == m2[i + 1..];
      i := i + 1;
    }
  }

  function Caseless(iCaseSensitivity: int): bool
  {
    (if iCaseSensitivity == 0 then CASESENSITIVITYDEFAULTVALUE else iCaseSensitivity) != 1
  }

  // ---------- what the modes mean ----------

  // One ASCII letter, once as a capital
  predicate CasePair(a: Byte, b: Byte)
  {
    (65 <= a <= 90 && b == a + 32) || (65 <= b <= 90 && a == b + 32)
  }

  // Modes 0 and 1 tell capitals from small letters, any other mode does not.
  predicate Alike(a: Byte, b: Byte, mode: int)
  {
    a == b || (mode != 0 && mode != 1 && CasePair(a, b))
  }

  // The order of two different characters: by their bytes, or as signed capitals
  predicate Before(a: Byte, b: Byte, mode: int)
  {
    if mode == 0 || mode == 1 then a < b else SignedCapital(a) < SignedCapital(b)
  }

  function SignedCapital(b: Byte): int
  {
    if b >= 128 then b - 256 else if 97 <= b <= 122 then b - 32 else b
  }

  predicate AllAlike(s: seq<Byte>, t: seq<Byte>, mode: int)
  {
    |s| == |t| && forall k :: 0 <= k < |s| ==> Alike(s[k], t[k], mode)
  }

  lemma KeysAlike(a: Byte, b: Byte, mode: int)
    ensures Key(a, Caseless(mode)) == Key(b, Caseless(mode)) <==> Alike(a, b, mode)
    ensures Key(a, Caseless(mode)) < Key(b, Caseless(mode)) <==> Before(a, b, mode)
  {
  }

  // Two names are equal in modes 0 and 1 exactly if they are the same, and in any other mode
  // exactly if they are the same up to the case of ASCII letters.
  lemma ModesMean(s: seq<Byte>, t: seq<Byte>, mode: int)
    ensures Compare(s, t, Caseless(mode)) == 0 <==> AllAlike(s, t, mode)
    ensures mode == 0 || mode == 1 ==> (AllAlike(s, t, mode) <==> s == t)
  {
    hide Key, Caseless, Alike;
    CompareZero(s, t, Caseless(mode));
    forall a: Byte, b: Byte
      ensures Key(a, Caseless(mode)) == Key(b, Caseless(mode)) <==> Alike(a, b, mode)
      ensures mode == 0 || mode == 1 ==> (Alike(a, b, mode) <==> a == b)
    {
      KeysAlike(a, b, mode);
      AlikeIsEqual(a, b, mode);
    }
    var k, l := Keys(s, Caseless(mode)), Keys(t, Caseless(mode));
    assert k == l <==> |k| == |l| && forall i :: 0 <= i < |k| ==> k[i] == l[i];
  }

  lemma AlikeIsEqual(a: Byte, b: Byte, mode: int)
    ensures mode == 0 || mode == 1 ==> (Alike(a, b, mode) <==> a == b)
  {
  }

  // The sign is decided by the first difference: the smaller character there, or the end of the
  // shorter name, comes first.
  lemma {:induction false} FirstDifferenceDecides(s: seq<Byte>, t: seq<Byte>, mode: int, k: nat)
    requires k <= |s| && k < |t| && AllAlike(s[..k], t[..k], mode)
    requires k == |s| || Before(s[k], t[k], mode)
    ensures Compare(s, t, Caseless(mode)) == -1 && Compare(t, s, Caseless(mode)) == 1
    decreases k
  {
    hide Key, Caseless, Alike, Before;
    CompareAntisymmetric(s, t, Caseless(mode));
    if k == 0 {
      if s != [] {
        KeysAlike(s[0], t[0], mode);
      }
    } else {
      KeysAlike(s[0], t[0], mode);
      assert Alike(s[..k][0], t[..k][0], mode);
      assert s[1..][..k - 1] == s[..k][1..] && t[1..][..k - 1] == t[..k][1..];
      FirstDifferenceDecides(s[1..], t[1..], mode, k - 1);
    }
  }

  method StringFileNameCompare(m1: seq<Byte>, m2: seq<Byte>, iCaseSensitivity: int) returns (r: int)
    requires Comparable(m1, m2)
    ensures r == Compare(CString(m1), CString(m2), Caseless(iCaseSensitivity))
  {
    var mode := iCaseSensitivity;
    if mode == 0 {
      mode := CASESENSITIVITYDEFAULTVALUE;
    }
    r := CompareMemory(m1, m2, mode != 1);
  }

  lemma {:induction false} CStringStops(s: seq<Byte>, rest: seq<Byte>)
    ensures 0 in s ==> CString(s + rest) == CString(s)
    ensures 0 !in s ==> CString(s) == s && CString(s + rest) == s + CString(rest)
  {
    if s == [] {
      assert s + rest == rest;
    } else if s[0] != 0 {
      var more := s[1..];
      assert s == [s[0]] + more && (s + rest)[1..] == more + rest;
      CStringStops(more, rest);
      assert 0 in s <==> 0 in more;
      assert CString(s + rest) == [s[0]] + CString(more + rest);
    }
  }

  // A name of at least n bytes without NUL never equals a shorter string, whatever follows it
  // in memory; an unterminated buffer therefore compares like its first n bytes.
  lemma TerminatorIsNotNeeded(name: seq<Byte>, rest: seq<Byte>, wanted: seq<Byte>, caseless: bool)
    requires |wanted| < |name| || (rest != [] && rest[0] == 0)
    requires 0 !in wanted
    ensures Comparable(name + rest, wanted + [0])
    ensures CString(wanted + [0]) == wanted
    ensures Compare(CString(name + rest), wanted, caseless) == 0 <==> Compare(CString(name), wanted, caseless) == 0
  {
    CStringStops(wanted, [0]);
    assert wanted + [] == wanted;
    CStringStops(name, rest);
    CompareZero(CString(name + rest), wanted, caseless);
    CompareZero(CString(name), wanted, caseless);
    if 0 !in name && rest != [] && rest[0] == 0 {
      assert CString(rest) == [] && name + [] == name;
    }
  }
}
