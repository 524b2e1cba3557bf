// crypt.h: the traditional PKWARE stream cipher (APPNOTE 6.1), on the 64-bit unsigned long of
// Linux and on a 32-bit one. The crc table is a parameter.
module Crypt {
  import opened Bytes
  import opened Bits

  const RAND_HEAD_LEN: nat := 12

  // ---------- the cipher, whatever its keys look like ----------

  // One step of the key schedule and the next byte of the key stream.
  datatype Machine<!K> = Machine(update: (K, Byte) -> K, keyByte: K -> Byte)

  function EncodeByte<K>(m: Machine<K>, k: K, c: Byte): Byte
  {
    XorByte(m.keyByte(k), c);
    Xor(m.keyByte(k), c)
  }

  // zencode over a run of bytes: both directions update the keys with the plain byte.
  function Encode<K>(m: Machine<K>, k: K, plain: seq<Byte>): (r: (seq<Byte>, K))
    ensures |r.0| == |plain|
  {
    if plain == [] then ([], k)
    else
      var rest := Encode(m, m.update(k, plain[0]), plain[1..]);
      ([EncodeByte(m, k, plain[0])] + rest.0, rest.1)
  }

  function Decode<K>(m: Machine<K>, k: K, cipher: seq<Byte>): (r: (seq<Byte>, K))
    ensures |r.0| == |cipher|
  {
    if cipher == [] then ([], k)
    else
      var c := EncodeByte(m, k, cipher[0]);
      var rest := Decode(m, m.update(k, c), cipher[1..]);
      ([c] + rest.0, rest.1)
  }

  // init_keys on the bytes of a password
  function Absorb<K>(m: Machine<K>, k: K, passwd: seq<Byte>): K
  {
    if passwd == [] then k else Absorb(m, m.update(k, passwd[0]), passwd[1..])
  }

  // The n-th byte is encrypted under the keys that the n bytes in front of it lead to, bit by bit.
  lemma {:induction false} EncodedByteAt<K>(m: Machine<K>, k: K, plain: seq<Byte>, n: nat, i: nat)
    requires n < |plain|
    ensures var keyByte := m.keyByte(Absorb(m, k, plain[..n]));
            Bit(Encode(m, k, plain).0[n], i) == (Bit(keyByte, i) + Bit(plain[n], i)) % 2
    decreases n
  {
    if n == 0 {
      BitOfXor(m.keyByte(k), plain[0], i);
    } else {
      EncodedByteAt(m, m.update(k, plain[0]), plain[1..], n - 1, i);
      assert plain[..n][1..] == plain[1..][..n - 1];
    }
  }

  // From equal keys, decoding gives back the plain text and leaves the writer's keys.
  lemma {:induction false} DecodeInvertsEncode<K>(m: Machine<K>, k: K, plain: seq<Byte>)
    ensures Decode(m, k, Encode(m, k, plain).0) == (plain, Encode(m, k, plain).1)
  {
    if plain == [] {
    } else {
      var c, k' := plain[0], m.update(k, plain[0]);
      DecodeInvertsEncode(m, k', plain[1..]);
      XorTwice(m.keyByte(k), c);
      var cipher := Encode(m, k, plain).0;
      assert cipher[1..] == Encode(m, k', plain[1..]).0;
      assert [c] + plain[1..] == plain;
    }
  }

  lemma {:induction false} EncodeInPieces<K>(m: Machine<K>, k: K, a: seq<Byte>, b: seq<Byte>)
    ensures var (x, k1) := Encode(m, k, a);
            var (y, k2) := Encode(m, k1, b);
            Encode(m, k, a + b) == (x + y, k2)
    decreases |a|
  {
    if a == [] {
      assert a + b == b && [] + Encode(m, k, b).0 == Encode(m, k, b).0;
    } else {
      assert (a + b)[1..] == a[1..] + b;
      EncodeInPieces(m, m.update(k, a[0]), a[1..], b);
      var x := Encode(m, m.update(k, a[0]), a[1..]);
      assert [EncodeByte(m, k, a[0])] + (x.0 + Encode(m, x.1, b).0)
          == [EncodeByte(m, k, a[0])] + x.0 + Encode(m, x.1, b).0;
    }
  }

  // ---------- the encryption header ----------

  function CrcBytes(crc: nat): (s: seq<Byte>)
    ensures |s| == 2
  {
    [crc / 0x1_0000 % 256, crc / 0x100_0000 % 256]
  }

  // crypthead: ten random bytes, encrypted once for better randomness and then again as the
  // start of the header, followed by two bytes of the crc.
  function CryptHead<K>(m: Machine<K>, init: K, passwd: seq<Byte>, random: seq<Byte>, crc: nat): (seq<Byte>, K)
  {
    var k := Absorb(m, init, passwd);
    Encode(m, k, Encode(m, k, random).0 + CrcBytes(crc))
  }

  // A reader with the password recovers the crc bytes and the writer's keys; decoding the other
  // ten bytes twice gives the random bytes.
  lemma HeaderDecodes<K>(m: Machine<K>, init: K, passwd: seq<Byte>, random: seq<Byte>, crc: nat)
    requires |random| == RAND_HEAD_LEN - 2
    ensures var k := Absorb(m, init, passwd);
            var (head, writer) := CryptHead(m, init, passwd, random, crc);
            var (plain, reader) := Decode(m, k, head);
            && |head| == RAND_HEAD_LEN && reader == writer
            && plain[RAND_HEAD_LEN - 2..] == CrcBytes(crc)
            && Decode(m, k, plain[..RAND_HEAD_LEN - 2]).0 == random
  {
    var k := Absorb(m, init, passwd);
    DecodeInvertsEncode(m, k, Encode(m, k, random).0 + CrcBytes(crc));
    DecodeInvertsEncode(m, k, random);
  }

  // With the header in front, a whole encrypted entry decrypts with the password alone.
  lemma EntryDecrypts<K>(m: Machine<K>, init: K, passwd: seq<Byte>, random: seq<Byte>, crc: nat, content: seq<Byte>)
    requires |random| == RAND_HEAD_LEN - 2
    ensures var (head, k) := CryptHead(m, init, passwd, random, crc);
            Decode(m, Absorb(m, init, passwd), head + Encode(m, k, content).0).0[RAND_HEAD_LEN..] == content
  {
    var k := Absorb(m, init, passwd);
    var front := Encode(m, k, random).0 + CrcBytes(crc);
    EncodeInPieces(m, k, front, content);
    DecodeInvertsEncode(m, k, front + content);
  }

  // ---------- the key schedule ----------

  // unsigned long has 64 bits on Linux and 32 bits elsewhere: word is 2 to that power.
  datatype Keys = Keys(k0: nat, k1: nat, k2: nat)
  type Table = Byte -> nat

  const INIT_KEYS := Keys(305419896, 591751049, 878082192)

  // The CRC32 macro: only the low byte of b matters.
  function CrcMacro(tab: Table, c: nat, b: Byte): nat
  {
    XorByte(c % 256, b);
    Xor(tab(Xor(c % 256, b)), c / 256)
  }

  function NextKey1(word: nat, k1: nat, k0: nat): nat
    requires word > 0
  {
    ((k1 + k0 % 256) % word * 134775813 + 1) % word
  }

  function KeyShift(k1: nat): Byte
  {
    k1 / 0x100_0000 % 256
  }

  function Update(tab: Table, word: nat, k: Keys, c: Byte): Keys
    requires word > 0
  {
    var k0 := CrcMacro(tab, k.k0, c);
    var k1 := NextKey1(word, k.k1, k0);
    Keys(k0, k1, CrcMacro(tab, k.k2, KeyShift(k1)))
  }

  // (low & 0xffff) | 2
  function Temp(k2: nat): (t: nat)
    ensures 2 <= t < TWO16
  {
    k2 % TWO16 + (if k2 / 2 % 2 == 0 then 2 else 0)
  }

  // temp ^ 1
  function Flipped(t: nat): (f: nat)
    ensures f <= t + 1 && (t % 2 == 1 ==> f == t - 1)
  {
    if t % 2 == 0 then t + 1 else t - 1
  }

  // The product in decrypt_byte always fits an unsigned int of 32 bits.
  lemma ProductFits(k2: nat)
    ensures Temp(k2) * Flipped(Temp(k2)) < TWO32
  {
    hide Temp;
    MulBound(Temp(k2), Flipped(Temp(k2)), 0xffff);
  }

  lemma MulBound(t: nat, f: nat, m: nat)
    requires t <= m && f <= m
    ensures t * f <= m * m
  {
    assert t * f <= m * f;
  }

  // decrypt_byte
  function DecryptByte(k: Keys): Byte
  {
    Temp(k.k2) * Flipped(Temp(k.k2)) % TWO32 / 256 % 256
  }

  function Pkware(tab: Table, word: nat): Machine<Keys>
    requires word > 0
  {
    Machine((k: Keys, c: Byte) => Update(tab, word, k, c), (k: Keys) => DecryptByte(k))
  }

  // ---------- the arithmetic of the source ----------

  lemma XorOne(a: nat)
    ensures Xor(a, 1) == Flipped(a)
  {
    XorZero(a / 2);
    XorSwaps(a / 2, 0);
  }

  lemma TempMeans(k2: nat)
    ensures Temp(k2) == Or(And(k2, 0xffff), 2)
  {
    hide And, Or;
    Masks(k2);
    OrTwo(k2 % 0x1_0000);
    assert k2 % 0x1_0000 / 2 % 2 == k2 / 2 % 2;
  }

  // decrypt_byte takes the bits 8 to 15 of the product of (key2 & 0xffff) | 2 and that number with
  // its last bit turned over.
  lemma KeyByteMeans(k: Keys)
    ensures var temp := Or(And(k.k2, 0xffff), 2);
            DecryptByte(k) == And(temp * Xor(temp, 1) / 0x100, 0xff)
  {
    hide And, Or, Xor, Temp, Flipped;
    var temp := Or(And(k.k2, 0xffff), 2);
    TempMeans(k.k2);
    XorOne(temp);
    ProductFits(k.k2);
    SecondByte(temp * Xor(temp, 1));
  }

  lemma Truncated(x: nat, word: nat)
    requires word > 0
    ensures (x % word * 134775813 + 1) % word == (x * 134775813 + 1) % word
  {
    var q := x / word;
    var z := x % word * 134775813 + 1;
    assert x * 134775813 + 1 == z + word * (q * 134775813) by {
      assert x == x % word + word * q;
      assert word * q * 134775813 == word * (q * 134775813);
    }
    DropMultiple(z, word, q * 134775813);
  }

  // A character or a key of any size: only its last byte counts.
  lemma CrcMacroMeans(tab: Table, c: nat, x: nat)
    ensures CrcMacro(tab, c, x % 256) == Xor(tab(And(Xor(c, x), 0xff)), c / 0x100)
  {
    hide And, Xor;
    LowByteOfXor(c, x);
  }

  lemma NextKeyMeans(word: nat, k1: nat, k0: nat)
    requires word > 0
    ensures NextKey1(word, k1, k0) == ((k1 + And(k0, 0xff)) * 134775813 + 1) % word
  {
    hide And;
    Masks(k0);
    Truncated(k1 + k0 % 256, word);
  }

  // One step of the key schedule on words of any size: key 0 takes the character, key 1 the last
  // byte of key 0, and key 2 what is left of key 1 behind its first 24 bits.
  lemma UpdateMeans(tab: Table, word: nat, k: Keys, c: Byte)
    requires word > 0
    ensures var k0 := Xor(tab(And(Xor(k.k0, c), 0xff)), k.k0 / 0x100);
            var k1 := ((k.k1 + And(k0, 0xff)) * 134775813 + 1) % word;
            var k2 := Xor(tab(And(Xor(k.k2, k1 / 0x100_0000), 0xff)), k.k2 / 0x100);
            Update(tab, word, k, c) == Keys(k0, k1, k2)
  {
    hide And, Xor, CrcMacro, NextKey1;
    CrcMacroMeans(tab, k.k0, c);
    var k0 := CrcMacro(tab, k.k0, c);
    NextKeyMeans(word, k.k1, k0);
    CrcMacroMeans(tab, k.k2, NextKey1(word, k.k1, k0) / 0x100_0000);
  }

  lemma XorSelf(a: nat)
    ensures Xor(a, 0) == a && Xor(a, a) == 0
  {
    XorSwaps(a, 0);
    XorZero(a);
    XorTwice(a, 0);
  }

  // The keys begin as APPNOTE 6.1.5 has them, so that without a password the byte 0 is encrypted as
  // 171.
  lemma KnownAnswer(tab: Table, k: Keys)
    requires k == INIT_KEYS
    ensures k == Keys(0x12345678, 0x23456789, 0x34567890)
    ensures EncodeByte(Pkware(tab, TWO64), k, 0) == 171
  {
    hide Xor;
    assert Temp(0x34567890) == 30866 && Flipped(30866) == 30867;
    assert 30866 * 30867 == 952740822 && 952740822 / 256 % 256 == 171;
    XorSelf(171);
  }

  // With a table that gives 0x123456 for the byte 0x78 the first step on the byte 0 ends in these
  // keys.
  lemma KnownStep(tab: Table, k: Keys)
    requires k.k0 == 0x12345678 && k.k1 == 0x23456789 && tab(0x78) == 0x12_3456
    ensures Update(tab, TWO64, k, 0).k0 == 0 && Update(tab, TWO64, k, 0).k1 == 79753728722577838
  {
    hide Xor;
    XorSelf(0x78);
    XorSelf(0x12_3456);
  }

  // The two bytes behind the random ones are the high word of a 32-bit crc.
  lemma CrcBytesAreHighWord(crc: nat)
    requires crc < TWO32
    ensures crc / 0x1_0000 == (CrcBytes(crc)[0] as nat) + 0x100 * (CrcBytes(crc)[1] as nat)
  {
    assert crc / 0x100_0000 == crc / 0x1_0000 / 0x100;
  }

  // ---------- word size does not matter ----------

  ghost predicate TableFits(tab: Table)
  {
    forall i: Byte :: tab(i) < TWO32
  }

  // Keys 0 and 2 are equal and stay below 2^32; key 1 agrees in its low 32 bits.
  ghost predicate SameKeys(k: Keys, k32: Keys)
  {
    k.k0 == k32.k0 < TWO32 && k.k2 == k32.k2 < TWO32 && k.k1 % TWO32 == k32.k1
  }

  lemma CrcMacroFits(tab: Table, c: nat, b: Byte)
    requires TableFits(tab) && c < TWO32
    ensures CrcMacro(tab, c, b) < TWO32
  {
    XorByte(c % 256, b);
    PowerOfTwo(32);
    XorFits(tab(Xor(c % 256, b)), c / 256, 32);
  }

  lemma LowWord(x: nat)
    ensures x % TWO64 % TWO32 == x % TWO32
  {
  }

  lemma Key1Agrees(k1: nat, k0: nat)
    ensures NextKey1(TWO64, k1, k0) % TWO32 == NextKey1(TWO32, k1 % TWO32, k0)
  {
    var x := k1 + k0 % 256;
    LowWord(x);
    LowWord(x % TWO64 * 134775813 + 1);
    AddMod(k1, k0 % 256);
    MulMod(x % TWO64);
  }

  lemma AddMod(a: nat, b: nat)
    ensures (a % TWO32 + b) % TWO32 == (a + b) % TWO32
  {
  }

  lemma MulMod(y: nat)
    ensures (y * 134775813 + 1) % TWO32 == (y % TWO32 * 134775813 + 1) % TWO32
  {
    var q := y / TWO32;
    assert y * 134775813 + 1 == (y % TWO32 * 134775813 + 1) + TWO32 * (q * 134775813);
    SkipMultiples(y % TWO32 * 134775813 + 1, q * 134775813);
  }

  lemma SkipMultiples(z: nat, q: nat)
    ensures (z + TWO32 * q) % TWO32 == z % TWO32
  {
  }

  lemma KeyShiftAgrees(k1: nat)
    ensures KeyShift(k1) == KeyShift(k1 % TWO32)
  {
    var q := k1 / TWO32;
    assert k1 / 0x100_0000 == k1 % TWO32 / 0x100_0000 + 256 * q;
  }

  lemma UpdateAgrees(tab: Table, k: Keys, k32: Keys, c: Byte)
    requires TableFits(tab) && SameKeys(k, k32)
    ensures SameKeys(Update(tab, TWO64, k, c), Update(tab, TWO32, k32, c))
    ensures DecryptByte(k) == DecryptByte(k32)
  {
    hide CrcMacro, NextKey1, KeyShift, Temp, Flipped;
    CrcMacroFits(tab, k.k0, c);
    var k0 := CrcMacro(tab, k.k0, c);
    Key1Agrees(k.k1, k0);
    var k1 := NextKey1(TWO64, k.k1, k0);
    KeyShiftAgrees(k1);
    CrcMacroFits(tab, k.k2, KeyShift(k1));
  }

  lemma {:induction false} EncodeAgrees(tab: Table, k: Keys, k32: Keys, plain: seq<Byte>)
    requires TableFits(tab) && SameKeys(k, k32)
    ensures Encode(Pkware(tab, TWO64), k, plain).0 == Encode(Pkware(tab, TWO32), k32, plain).0
    ensures SameKeys(Encode(Pkware(tab, TWO64), k, plain).1, Encode(Pkware(tab, TWO32), k32, plain).1)
    decreases |plain|
  {
    hide Update, SameKeys, TableFits, DecryptByte;
    UpdateAgrees(tab, k, k32, 0);
    if plain == [] {
    } else {
      UpdateAgrees(tab, k, k32, plain[0]);
      EncodeAgrees(tab, Update(tab, TWO64, k, plain[0]), Update(tab, TWO32, k32, plain[0]), plain[1..]);
    }
  }

  lemma {:induction false} AbsorbAgrees(tab: Table, k: Keys, k32: Keys, passwd: seq<Byte>)
    requires TableFits(tab) && SameKeys(k, k32)
    ensures SameKeys(Absorb(Pkware(tab, TWO64), k, passwd), Absorb(Pkware(tab, TWO32), k32, passwd))
    decreases |passwd|
  {
    hide Update, SameKeys, TableFits;
    if passwd == [] {
    } else {
      UpdateAgrees(tab, k, k32, passwd[0]);
      AbsorbAgrees(tab, Update(tab, TWO64, k, passwd[0]), Update(tab, TWO32, k32, passwd[0]), passwd[1..]);
    }
  }

  // A writer with 64-bit words produces, for every password, random header and content, byte for
  // byte what one with 32-bit words does.
  lemma WordSizeDoesNotMatter(tab: Table, passwd: seq<Byte>, random: seq<Byte>, crc: nat, content: seq<Byte>)
    requires TableFits(tab)
    ensures var (head, k) := CryptHead(Pkware(tab, TWO64), INIT_KEYS, passwd, random, crc);
            var (head32, k32) := CryptHead(Pkware(tab, TWO32), INIT_KEYS, passwd, random, crc);
            head == head32 && Encode(Pkware(tab, TWO64), k, content).0 == Encode(Pkware(tab, TWO32), k32, content).0
  {
    AbsorbAgrees(tab, INIT_KEYS, INIT_KEYS, passwd);
    hide SameKeys, TableFits, Pkware;
    var k, k32 := Absorb(Pkware(tab, TWO64), INIT_KEYS, passwd), Absorb(Pkware(tab, TWO32), INIT_KEYS, passwd);
    EncodeAgrees(tab, k, k32, random);
    var plain := Encode(Pkware(tab, TWO64), k, random).0 + CrcBytes(crc);
    EncodeAgrees(tab, k, k32, plain);
    EncodeAgrees(tab, Encode(Pkware(tab, TWO64), k, plain).1, Encode(Pkware(tab, TWO32), k32, plain).1, content);
  }

  // ---------- the program ----------

  ghost function KeysIn(pkeys: array<nat>): Keys
    requires pkeys.Length == 3
    reads pkeys
  {
    Keys(pkeys[0], pkeys[1], pkeys[2])
  }

  // update_keys returns the byte it was given.
  method UpdateKeys(pkeys: array<nat>, tab: Table, c: Byte) returns (r: Byte)
    requires pkeys.Length == 3
    modifies pkeys
    ensures r == c && KeysIn(pkeys) == Update(tab, TWO64, old(KeysIn(pkeys)), c)
  {
    hide CrcMacro;
    pkeys[0] := CrcMacro(tab, pkeys[0], c);
    pkeys[1] := (pkeys[1] + pkeys[0] % 256) % TWO64;
    pkeys[1] := (pkeys[1] * 134775813 + 1) % TWO64;
    var keyshift := pkeys[1] / 0x100_0000 % 256;
    pkeys[2] := CrcMacro(tab, pkeys[2], keyshift);
    r := c;
  }

  method ZEncode(pkeys: array<nat>, tab: Table, c: Byte) returns (e: Byte)
    requires pkeys.Length == 3
    modifies pkeys
    ensures e == EncodeByte(Pkware(tab, TWO64), old(KeysIn(pkeys)), c)
    ensures KeysIn(pkeys) == Pkware(tab, TWO64).update(old(KeysIn(pkeys)), c)
  {
    var t := DecryptByte(Keys(pkeys[0], pkeys[1], pkeys[2]));
    var _ := UpdateKeys(pkeys, tab, c);
    XorByte(t, c);
    e := Xor(t, c);
  }

  method ZDecode(pkeys: array<nat>, tab: Table, e: Byte) returns (c: Byte)
    requires pkeys.Length == 3
    modifies pkeys
    ensures c == EncodeByte(Pkware(tab, TWO64), old(KeysIn(pkeys)), e)
    ensures KeysIn(pkeys) == Pkware(tab, TWO64).update(old(KeysIn(pkeys)), c)
  {
    var t := DecryptByte(Keys(pkeys[0], pkeys[1], pkeys[2]));
    XorByte(t, e);
    c := Xor(t, e);
    c := UpdateKeys(pkeys, tab, c);
  }

  // The characters in front of the terminator
  function Characters(passwd: seq<Byte>): (s: seq<Byte>)
    ensures s <= passwd && 0 !in s && (|s| < |passwd| ==> passwd[|s|] == 0)
  {
    if passwd == [] || passwd[0] == 0 then [] else [passwd[0]] + Characters(passwd[1..])
  }

  method InitKeys(passwd: seq<Byte>, pkeys: array<nat>, tab: Table)
    requires pkeys.Length == 3 && 0 in passwd
    modifies pkeys
    ensures KeysIn(pkeys) == Absorb(Pkware(tab, TWO64), INIT_KEYS, Characters(passwd))
  {
    pkeys[0] := 305419896;
    pkeys[1] := 591751049;
    pkeys[2] := 878082192;
    var p := 0;
    while passwd[p] != 0
      invariant p < |passwd| && 0 in passwd[p..]
      invariant Absorb(Pkware(tab, TWO64), KeysIn(pkeys), Characters(passwd[p..]))
             == Absorb(Pkware(tab, TWO64), INIT_KEYS, Characters(passwd))
      decreases |passwd| - p
    {
      assert Characters(passwd[p..]) == [passwd[p]] + Characters(passwd[p..][1..])
          && passwd[p..][1..] == passwd[p + 1..];
      var _ := UpdateKeys(pkeys, tab, passwd[p]);
      p := p + 1;
    }
    assert Characters(passwd[p..]) == [];
  }

  lemma EncodeStep<K>(m: Machine<K>, k: K, s: seq<Byte>, n: nat)
    requires n < |s|
    ensures var rest := Encode(m, m.update(k, s[n]), s[n + 1..]);
            Encode(m, k, s[n..]) == ([EncodeByte(m, k, s[n])] + rest.0, rest.1)
  {
    assert s[n..][1..] == s[n + 1..];
  }

  // Encode plain to buf from position at on.
  method EncodeTo(pkeys: array<nat>, tab: Table, plain: seq<Byte>, buf: array<Byte>, at: nat)
    requires pkeys.Length == 3 && at + |plain| <= buf.Length
    modifies pkeys, buf
    ensures var r := Encode(Pkware(tab, TWO64), old(KeysIn(pkeys)), plain);
            && buf[..at] == old(buf[..at]) && buf[at..at + |plain|] == r.0
            && buf[at + |plain|..] == old(buf[at + |plain|..])
            && KeysIn(pkeys) == r.1
  {
    hide Encode, Pkware, EncodeByte;
    ghost var m, was := Pkware(tab, TWO64), buf[..];
    ghost var r := Encode(m, KeysIn(pkeys), plain);
    ghost var out: seq<Byte> := [];
    var n := 0;
    assert plain[0..] == plain && [] + r.0 == r.0;
    while n < |plain|
      invariant n <= |plain|
      invariant var rest := Encode(m, KeysIn(pkeys), plain[n..]);
                r == (out + rest.0, rest.1)
      invariant buf[..at] == was[..at] && buf[at..at + n] == out && buf[at + n..] == was[at + n..]
    {
      EncodeStep(m, KeysIn(pkeys), plain, n);
      var e := ZEncode(pkeys, tab, plain[n]);
      ghost var rest := Encode(m, KeysIn(pkeys), plain[n + 1..]).0;
      assert out + ([e] + rest) == (out + [e]) + rest;
      out := out + [e];
      buf[at + n] := e;
      n := n + 1;
    }
    NothingLeft(m, KeysIn(pkeys), plain[n..]);
  }

  lemma NothingLeft<K>(m: Machine<K>, k: K, s: seq<Byte>)
    requires s == []
    ensures Encode(m, k, s) == ([], k)
  {
  }

  // crypthead with the ten random bytes as a parameter. A buffer that is too small changes nothing.
  method CryptHeadTo(passwd: seq<Byte>, buf: array<Byte>, bufSize: int, pkeys: array<nat>, tab: Table,
          crcForCrypting: nat, random: seq<Byte>) returns (n: int)
    requires pkeys.Length == 3 && 0 in passwd && bufSize <= buf.Length && |random| == RAND_HEAD_LEN - 2
    modifies pkeys, buf
    ensures if bufSize < RAND_HEAD_LEN then n == 0 && buf[..] == old(buf[..]) && KeysIn(pkeys) == old(KeysIn(pkeys))
            else
              var r := CryptHead(Pkware(tab, TWO64), INIT_KEYS, Characters(passwd), random, crcForCrypting);
              n == RAND_HEAD_LEN && buf[..] == r.0 + old(buf[RAND_HEAD_LEN..]) && KeysIn(pkeys) == r.1
  {
    if bufSize < RAND_HEAD_LEN {
      return 0;
    }
    hide Encode, Pkware, Absorb, CrcBytes;
    ghost var m, was := Pkware(tab, TWO64), buf[..];
    var header := EncodeRandom(passwd, pkeys, tab, random);
    InitKeys(passwd, pkeys, tab);
    ghost var k, head := KeysIn(pkeys), header[..];
    EncodeTo(pkeys, tab, header[..], buf, 0);
    ghost var mid, first := buf[..], Encode(m, k, head).0;
    ghost var last := CrcBytes(crcForCrypting);
    ghost var second := Encode(m, KeysIn(pkeys), last).0;
    EncodeTo(pkeys, tab, CrcBytes(crcForCrypting), buf, RAND_HEAD_LEN - 2);
    EncodeInPieces(m, k, head, last);
    HeaderParts(buf[..], mid, was, first, second);
    n := RAND_HEAD_LEN;
  }

  // The random bytes, encoded once
  method EncodeRandom(passwd: seq<Byte>, pkeys: array<nat>, tab: Table, random: seq<Byte>)
    returns (header: array<Byte>)
    requires pkeys.Length == 3 && 0 in passwd && |random| == RAND_HEAD_LEN - 2
    modifies pkeys
    ensures fresh(header)
    ensures var m := Pkware(tab, TWO64);
            header[..] == Encode(m, Absorb(m, INIT_KEYS, Characters(passwd)), random).0
  {
    hide Encode, Pkware, Absorb;
    header := new Byte[RAND_HEAD_LEN - 2];
    InitKeys(passwd, pkeys, tab);
    EncodeTo(pkeys, tab, random, header, 0);
    assert header[..] == header[0..0 + |random|];
  }

  // The two stretches that were written one behind the other into was
  lemma HeaderParts(buf: seq<Byte>, mid: seq<Byte>, was: seq<Byte>, first: seq<Byte>, second: seq<Byte>)
    requires |buf| == |mid| == |was| >= RAND_HEAD_LEN && |first| == RAND_HEAD_LEN - 2 && |second| == 2
    requires mid[0..0 + |first|] == first && mid[0 + |first|..] == was[0 + |first|..]
    requires buf[..|first|] == mid[..|first|] && buf[|first|..|first| + 2] == second
    requires buf[|first| + 2..] == mid[|first| + 2..]
    ensures buf == (first + second) + was[RAND_HEAD_LEN..]
  {
    assert mid[..|first|] == first && mid[|first| + 2..] == mid[|first|..][2..] == was[|first| + 2..];
    assert buf == buf[..|first|] + buf[|first|..|first| + 2] + buf[|first| + 2..];
  }
}
