// zlib's crc32 as unzip.c relies on it: some fold over the bytes. The step on one byte is a
// parameter, so what is proved holds for every such checksum.
module Crc {
  import opened Bytes

  type CrcStep = (nat, Byte) -> nat

  function Crc32(step: CrcStep, crc: nat, s: seq<Byte>): nat
    decreases |s|
  {
    if s == [] then crc else Crc32(step, step(crc, s[0]), s[1..])
  }

  // The crc of a file does not depend on the pieces it was read in.
  lemma {:induction false} CrcOfPieces(step: CrcStep, crc: nat, s: seq<Byte>, t: seq<Byte>)
    ensures Crc32(step, Crc32(step, crc, s), t) == Crc32(step, crc, s + t)
    decreases |s|
  {
    if s == [] {
      assert s + t == t;
    } else {
      assert (s + t)[1..] == s[1..] + t;
      CrcOfPieces(step, step(crc, s[0]), s[1..], t);
    }
  }
}
