// Bitwise operations on numbers of any size, and their bits.
module Bits {
  import opened Bytes

  function Pow2(n: nat): (p: nat)
    ensures p > 0
  {
    if n == 0 then 1 else 2 * Pow2(n - 1)
  }

  function Xor(a: nat, b: nat): nat
  {
    if a == 0 && b == 0 then 0 else (a + b) % 2 + 2 * Xor(a / 2, b / 2)
  }

  lemma {:induction false} XorFits(a: nat, b: nat, n: nat)
    requires a < Pow2(n) && b < Pow2(n)
    ensures Xor(a, b) < Pow2(n)
    decreases n
  {
    if n == 0 {
    } else {
      XorFits(a / 2, b / 2, n - 1);
    }
  }

  lemma XorByte(a: Byte, b: Byte)
    ensures Xor(a, b) < 256
  {
    assert Pow2(4) == 16;
    assert Pow2(8) == 256;
    XorFits(a, b, 8);
  }

  lemma {:induction false} XorZero(b: nat)
    ensures Xor(0, b) == b
  {
    if b == 0 {
    } else {
      XorZero(b / 2);
    }
  }

  lemma XorHalves(a: nat, b: nat)
    ensures Xor(a, b) / 2 == Xor(a / 2, b / 2) && Xor(a, b) % 2 == (a + b) % 2
  {
  }

  lemma SameHalves(x: nat, t: nat, c: nat, z: nat)
    requires z / 2 == c / 2 && x % 2 == (t + c) % 2 && z % 2 == (t + x) % 2
    ensures z == c
  {
    assert (t + x) % 2 == c % 2;
  }

  lemma {:induction false} XorTwice(t: nat, c: nat)
    ensures Xor(t, Xor(t, c)) == c
    decreases t + c
  {
    if t == 0 {
      XorZero(c);
      XorZero(Xor(t, c));
    } else {
      hide Xor;
      var x := Xor(t, c);
      XorTwice(t / 2, c / 2);
      XorHalves(t, c);
      XorHalves(t, x);
      SameHalves(x, t, c, Xor(t, x));
    }
  }

  function Bit(n: nat, i: nat): nat
    decreases i
  {
    if i == 0 then n % 2 else Bit(n / 2, i - 1)
  }

  function And(a: nat, b: nat): (r: nat)
    ensures r <= b
  {
    if a == 0 || b == 0 then 0 else a % 2 * (b % 2) + 2 * And(a / 2, b / 2)
  }

  function Or(a: nat, b: nat): nat
  {
    if a == 0 then b else if b == 0 then a else (if a % 2 + b % 2 > 0 then 1 else 0) + 2 * Or(a / 2, b / 2)
  }

  lemma {:induction false} NoBits(i: nat)
    ensures Bit(0, i) == 0
    decreases i
  {
    if i == 0 {
    } else {
      NoBits(i - 1);
    }
  }

  lemma {:induction false} BitIsBit(n: nat, i: nat)
    ensures Bit(n, i) == 0 || Bit(n, i) == 1
    decreases i
  {
    if i == 0 {
    } else {
      BitIsBit(n / 2, i - 1);
    }
  }

  // What the three operations do to the i-th bits
  lemma {:induction false} BitOfXor(a: nat, b: nat, i: nat)
    ensures Bit(Xor(a, b), i) == (Bit(a, i) + Bit(b, i)) % 2
    decreases i
  {
    hide Xor;
    XorHalves(a, b);
    if i == 0 {
    } else {
      BitOfXor(a / 2, b / 2, i - 1);
    }
  }

  lemma {:induction false} BitOfAnd(a: nat, b: nat, i: nat)
    ensures Bit(And(a, b), i) == if Bit(a, i) == 1 && Bit(b, i) == 1 then 1 else 0
    decreases i
  {
    if a == 0 || b == 0 {
      NoBits(i);
    } else if i == 0 {
    } else {
      BitOfAnd(a / 2, b / 2, i - 1);
      assert And(a, b) / 2 == And(a / 2, b / 2);
    }
  }

  lemma {:induction false} BitOfOr(a: nat, b: nat, i: nat)
    ensures Bit(Or(a, b), i) == if Bit(a, i) == 1 || Bit(b, i) == 1 then 1 else 0
    decreases i
  {
    if a == 0 || b == 0 {
      NoBits(i);
      BitIsBit(a, i);
      BitIsBit(b, i);
    } else if i == 0 {
    } else {
      BitOfOr(a / 2, b / 2, i - 1);
      assert Or(a, b) / 2 == Or(a / 2, b / 2);
    }
  }

  // A mask of n ones keeps the last n bits.
  lemma {:induction false} MaskIsRemainder(a: nat, n: nat)
    ensures And(a, Pow2(n) - 1) == a % Pow2(n)
    decreases n
  {
    if n == 0 {
    } else {
      var m := Pow2(n - 1);
      assert (Pow2(n) - 1) / 2 == m - 1 && (Pow2(n) - 1) % 2 == 1;
      MaskIsRemainder(a / 2, n - 1);
      HalfRemainder(a, m);
      if a == 0 {
        assert 0 % Pow2(n) == 0;
      }
    }
  }

  lemma HalfRemainder(a: nat, m: nat)
    requires m > 0
    ensures a % (2 * m) == a % 2 + 2 * (a / 2 % m)
    ensures a % (2 * m) / 2 == a / 2 % m && a % (2 * m) % 2 == a % 2
  {
    var q := a / 2 / m;
    assert a == (a % 2 + 2 * (a / 2 % m)) + (2 * m) * q;
    RemainderOf(a, a % 2 + 2 * (a / 2 % m), 2 * m, q);
  }

  lemma RemainderOf(a: nat, r: nat, m: nat, q: nat)
    requires m > 0 && r < m && a == r + m * q
    ensures a % m == r
  {
    var d := q - a / m;
    assert m * q - m * (a / m) == m * d;
    assert a % m - r == m * d;
  }

  lemma Masks(a: nat)
    ensures And(a, 0xff) == a % 256 && And(a, 0xffff) == a % 0x1_0000
  {
    assert Pow2(4) == 16;
    assert Pow2(8) == 256;
    assert Pow2(12) == 0x1000;
    assert Pow2(16) == 0x1_0000;
    MaskIsRemainder(a, 8);
    MaskIsRemainder(a, 16);
  }

  lemma OrTwo(a: nat)
    ensures Or(a, 2) == a + (if a / 2 % 2 == 0 then 2 else 0)
  {
    assert Or(a / 2, 1) == a / 2 + (if a / 2 % 2 == 0 then 1 else 0);
  }

  lemma {:induction false} XorSwaps(a: nat, b: nat)
    ensures Xor(a, b) == Xor(b, a)
  {
    if a == 0 && b == 0 {
    } else {
      XorSwaps(a / 2, b / 2);
    }
  }

  lemma XorRemainderStep(a: nat, b: nat, m: nat)
    requires m > 0 && Xor(a / 2, b / 2) % m == Xor(a / 2 % m, b / 2 % m)
    ensures Xor(a, b) % (2 * m) == Xor(a % (2 * m), b % (2 * m))
  {
    hide Xor;
    var x, a1, b1 := Xor(a, b), a % (2 * m), b % (2 * m);
    HalfRemainder(a, m);
    HalfRemainder(b, m);
    HalfRemainder(x, m);
    XorHalves(a, b);
    XorHalves(a1, b1);
    assert Xor(a1, b1) / 2 == x / 2 % m && Xor(a1, b1) % 2 == x % 2 by {
      SumParity(a, b, a1, b1);
    }
  }

  lemma SumParity(a: nat, b: nat, c: nat, d: nat)
    requires a % 2 == c % 2 && b % 2 == d % 2
    ensures (a + b) % 2 == (c + d) % 2
  {
  }

  // The last n bits of an exclusive or
  lemma {:induction false} XorRemainder(a: nat, b: nat, n: nat)
    ensures Xor(a, b) % Pow2(n) == Xor(a % Pow2(n), b % Pow2(n))
    decreases n
  {
    if n == 0 {
      assert Pow2(0) == 1 && Xor(0, 0) == 0;
    } else {
      XorRemainder(a / 2, b / 2, n - 1);
      XorRemainderStep(a, b, Pow2(n - 1));
    }
  }

  lemma LowByteOfXor(a: nat, b: nat)
    ensures And(Xor(a, b), 0xff) == Xor(a % 256, b % 256)
  {
    assert Pow2(4) == 16;
    assert Pow2(8) == 256;
    Masks(Xor(a, b));
    XorRemainder(a, b, 8);
  }

  lemma SecondByte(p: nat)
    requires p < TWO32
    ensures p % TWO32 / 256 % 256 == And(p / 0x100, 0xff)
  {
    hide And;
    Masks(p / 0x100);
  }

  lemma DropMultiple(z: nat, word: nat, q: nat)
    requires word > 0
    ensures (z + word * q) % word == z % word
  {
    var r := z / word;
    assert z + word * q == z % word + word * (r + q) by {
      assert word * r + word * q == word * (r + q);
    }
    RemainderOf(z + word * q, z % word, word, r + q);
  }

  lemma PowerOfTwo(n: nat)
    ensures Pow2(8) == 256 && Pow2(32) == TWO32
  {
    assert Pow2(4) == 16;
    assert Pow2(8) == 256;
    assert Pow2(12) == 0x1000;
    assert Pow2(16) == 0x1_0000;
    assert Pow2(20) == 0x10_0000;
    assert Pow2(24) == 0x100_0000;
    assert Pow2(28) == 0x1000_0000;
  }
}
