// Archives written by APPNOTE 4.3.12 to 4.3.16 and 4.5.3, and what unzip.c makes of them.
module EncodedArchives {
  import opened Bytes
  import opened ByteStreams
  import opened Options
  import opened SignatureSearch
  import opened Crc
  import opened ZipFormat
  import opened Directories
  import opened RepairOpens
  import opened RepairRoundTrip
  import opened Sessions
  import opened StoredSessions
  import opened RepairSessions

  function W64(n: nat): (s: seq<Byte>)
    ensures |s| == 8
  {
    W32(n % TWO32) + W32(n / TWO32)
  }

  // ---------- date and time ----------

  datatype Stamp = Stamp(sec: nat, min: nat, hour: nat, day: nat, month: nat, since1980: nat)

  predicate ValidStamp(t: Stamp)
  {
    t.sec < 64 && t.min < 64 && t.hour < 32 && t.day < 32 && t.month < 16 && t.since1980 < 128
  }

  // The two MS-DOS words: five bits of half seconds, six of minutes, five of hours; five of days,
  // four of months and seven of years since 1980
  function TimeWord(t: Stamp): nat
  {
    t.sec / 2 + 32 * t.min + 2048 * t.hour
  }

  function DateWord(t: Stamp): nat
  {
    t.day + 32 * t.month + 512 * t.since1980
  }

  // Months count from 0; a month of 0 comes out as the largest unsigned int.
  function Unpacked(t: Stamp): TmUnz
  {
    TmUnz(t.sec / 2 * 2, t.min, t.hour, t.day, if t.month == 0 then 0xFFFF_FFFF else t.month - 1, t.since1980 + 1980)
  }

  lemma TimeReads(half: nat, min: nat, hour: nat, date: nat)
    requires half < 32 && min < 64 && hour < 32
    ensures var x := half + 32 * min + 2048 * hour + 0x1_0000 * date;
            && x % 32 == half && x / 32 % 64 == min && x / 2048 % 32 == hour && x / 0x1_0000 == date
  {
    var x := half + 32 * min + 2048 * hour + 0x1_0000 * date;
    assert x / 32 == min + 64 * (hour + 32 * date);
    assert x / 2048 == hour + 32 * date;
  }

  lemma DateReads(day: nat, month: nat, years: nat)
    requires day < 32 && month < 16 && years < 128
    ensures var x := day + 32 * month + 512 * years;
            x < 0x1_0000 && x % 32 == day && x / 32 % 16 == month && x / 512 % 128 == years
  {
    var x := day + 32 * month + 512 * years;
    assert x / 32 == month + 16 * years;
    assert x / 512 == years;
  }

  // Every field of a date and time comes back, seconds as even numbers.
  lemma StampReads(t: Stamp)
    requires ValidStamp(t)
    ensures TimeWord(t) < TWO16 && DateWord(t) < TWO16
    ensures DosDateToTmuDate(TimeWord(t) + 0x1_0000 * DateWord(t)) == Unpacked(t)
  {
    TimeReads(t.sec / 2, t.min, t.hour, DateWord(t));
    DateReads(t.day, t.month, t.since1980);
  }

  // ---------- a directory entry ----------

  datatype Block = Block(id: nat, data: seq<Byte>)

  // An entry with all its fields. Its sizes and its offset may need 64 bits.
  datatype Item = Item(
    version: nat, versionNeeded: nat, flag: nat, method_: nat, stamp: Stamp, crc: nat, compressed: nat,
    uncompressed: nat, disk: nat, internalFa: nat, externalFa: nat, offset: nat, name: seq<Byte>,
    blocks: seq<Block>, comment: seq<Byte>)

  function BlockBytes(b: Block): seq<Byte>
  {
    W16(b.id) + W16(|b.data|) + b.data
  }

  function BlocksBytes(bs: seq<Block>): seq<Byte>
  {
    if bs == [] then [] else BlockBytes(bs[0]) + BlocksBytes(bs[1..])
  }

  // What is written for a value in 32 bits, and what in the Zip64 block
  function Narrow(n: nat): nat
  {
    if n < 0xFFFF_FFFF then n else 0xFFFF_FFFF
  }

  function Wide(n: nat): seq<Byte>
  {
    if n < 0xFFFF_FFFF then [] else W64(n)
  }

  function WideBytes(c: Item): seq<Byte>
  {
    Wide(c.uncompressed) + Wide(c.compressed) + Wide(c.offset)
  }

  // The extra field: the given blocks, and a Zip64 block behind them if a value needs it
  function Extra(c: Item): seq<Byte>
  {
    BlocksBytes(c.blocks) + if WideBytes(c) == [] then [] else W16(1) + W16(|WideBytes(c)|) + WideBytes(c)
  }

  function FixedPart(c: Item): (h: seq<Byte>)
    ensures |h| == 46
  {
    W32(0x0201_4b50) + W16(c.version) + W16(c.versionNeeded) + W16(c.flag) + W16(c.method_)
    + W16(TimeWord(c.stamp)) + W16(DateWord(c.stamp)) + W32(c.crc) + W32(Narrow(c.compressed))
    + W32(Narrow(c.uncompressed)) + W16(|c.name|) + W16(|Extra(c)|) + W16(|c.comment|) + W16(c.disk)
    + W16(c.internalFa) + W32(c.externalFa) + W32(Narrow(c.offset))
  }

  function ItemBytes(c: Item): seq<Byte>
  {
    FixedPart(c) + c.name + Extra(c) + c.comment
  }

  ghost predicate Fits(c: Item)
  {
    && c.version < TWO16 && c.versionNeeded < TWO16 && c.flag < TWO16 && c.method_ < TWO16 && ValidStamp(c.stamp)
    && c.crc < TWO32 && c.compressed < TWO64 && c.uncompressed < TWO64 && c.disk < TWO16 && c.internalFa < TWO16
    && c.externalFa < TWO32 && c.offset < TWO64 && |c.name| < TWO16 && |Extra(c)| < TWO16 && |c.comment| < TWO16
    && (forall b :: b in c.blocks ==> b.id < TWO16 && b.id != 1)
  }

  // What is shown of an entry: its own values, 64 bits wide
  function Shown(c: Item): Entry
  {
    Entry(FileInfo(c.version, c.versionNeeded, c.flag, c.method_, TimeWord(c.stamp) + 0x1_0000 * DateWord(c.stamp),
                   c.crc, c.compressed, c.uncompressed, |c.name|, |Extra(c)|, |c.comment|, c.disk, c.internalFa,
                   c.externalFa, Unpacked(c.stamp)),
          c.offset)
  }

  function NarrowShown(c: Item): Entry
  {
    var e := Shown(c);
    Entry(e.info.(compressedSize := Narrow(c.compressed), uncompressedSize := Narrow(c.uncompressed)),
          Narrow(c.offset))
  }

  lemma FixedSlices(c: Item)
    ensures var h := FixedPart(c);
            && h[0..4] == W32(0x0201_4b50) && h[4..6] == W16(c.version) && h[6..8] == W16(c.versionNeeded)
            && h[8..10] == W16(c.flag) && h[10..12] == W16(c.method_) && h[12..14] == W16(TimeWord(c.stamp))
            && h[14..16] == W16(DateWord(c.stamp)) && h[16..20] == W32(c.crc)
  {
    hide W16, W32, Extra, TimeWord, DateWord, Narrow;
  }

  lemma FixedSlices2(c: Item)
    ensures var h := FixedPart(c);
            && h[20..24] == W32(Narrow(c.compressed)) && h[24..28] == W32(Narrow(c.uncompressed))
            && h[28..30] == W16(|c.name|) && h[30..32] == W16(|Extra(c)|) && h[32..34] == W16(|c.comment|)
            && h[34..36] == W16(c.disk) && h[36..38] == W16(c.internalFa) && h[38..42] == W32(c.externalFa)
            && h[42..46] == W32(Narrow(c.offset))
  {
    hide W16, W32, Extra, TimeWord, DateWord, Narrow;
  }

  // A 16-bit field of h, and a 32-bit one, as the stream reads them
  lemma FieldReads16(d: seq<Byte>, p: nat, h: seq<Byte>, k: nat, n: nat)
    requires At(d, p, h) && k + 2 <= |h| && h[k..k + 2] == W16(n) && n < TWO16
    ensures Short(d, p + k) == n
  {
    hide W16, R16, Short;
    HeaderFieldReads(d, p, h, k, n);
    FieldInside(d, p + k);
  }

  lemma FieldReads32(d: seq<Byte>, p: nat, h: seq<Byte>, k: nat, n: nat)
    requires At(d, p, h) && k + 4 <= |h| && h[k..k + 4] == W32(n) && n < TWO32
    ensures Long(d, p + k) == n
  {
    hide W32, R32, Long;
    HeaderFieldReads(d, p, h, k, n);
    FieldInside(d, p + k);
  }

  lemma FixedReads1(d: seq<Byte>, p: nat, c: Item)
    requires Fits(c) && At(d, p, FixedPart(c))
    ensures Long(d, p) == 0x0201_4b50 && Short(d, p + 4) == c.version && Short(d, p + 6) == c.versionNeeded
    ensures Short(d, p + 8) == c.flag && Short(d, p + 10) == c.method_
    ensures Short(d, p + 12) == TimeWord(c.stamp) && Short(d, p + 14) == DateWord(c.stamp)
    ensures Long(d, p + 16) == c.crc
  {
    hide FixedPart, Short, Long, At, W16, W32, Extra, TimeWord, DateWord;
    FixedSlices(c);
    StampReads(c.stamp);
    var h := FixedPart(c);
    FieldReads32(d, p, h, 0, 0x0201_4b50);
    FieldReads16(d, p, h, 4, c.version);
    FieldReads16(d, p, h, 6, c.versionNeeded);
    FieldReads16(d, p, h, 8, c.flag);
    FieldReads16(d, p, h, 10, c.method_);
    FieldReads16(d, p, h, 12, TimeWord(c.stamp));
    FieldReads16(d, p, h, 14, DateWord(c.stamp));
    FieldReads32(d, p, h, 16, c.crc);
  }

  lemma FixedReads2(d: seq<Byte>, p: nat, c: Item)
    requires Fits(c) && At(d, p, FixedPart(c))
    ensures Long(d, p + 20) == Narrow(c.compressed) && Long(d, p + 24) == Narrow(c.uncompressed)
    ensures Short(d, p + 28) == |c.name| && Short(d, p + 30) == |Extra(c)| && Short(d, p + 32) == |c.comment|
    ensures Short(d, p + 34) == c.disk && Short(d, p + 36) == c.internalFa && Long(d, p + 38) == c.externalFa
    ensures Long(d, p + 42) == Narrow(c.offset)
  {
    hide FixedPart, Short, Long, At, W16, W32, Extra;
    FixedSlices2(c);
    var h := FixedPart(c);
    FieldReads32(d, p, h, 20, Narrow(c.compressed));
    FieldReads32(d, p, h, 24, Narrow(c.uncompressed));
    FieldReads16(d, p, h, 28, |c.name|);
    FieldReads16(d, p, h, 30, |Extra(c)|);
    FieldReads16(d, p, h, 32, |c.comment|);
    FieldReads16(d, p, h, 34, c.disk);
    FieldReads16(d, p, h, 36, c.internalFa);
    FieldReads32(d, p, h, 38, c.externalFa);
    FieldReads32(d, p, h, 42, Narrow(c.offset));
  }

  // Two words one behind the other read as one.
  lemma WordsJoin(d: seq<Byte>, p: nat)
    requires p + 4 <= |d|
    ensures Long(d, p) == Short(d, p) + 0x1_0000 * Short(d, p + 2)
  {
  }

  // The fixed part decodes to the values it was written from, as far as 32 bits hold them.
  lemma FixedPartReads(d: seq<Byte>, p: nat, c: Item)
    requires Fits(c) && At(d, p, FixedPart(c))
    ensures Long(d, p) == 0x0201_4b50 && HeaderAt(d, p) == NarrowShown(c)
  {
    hide FixedPart, Short, Long, W16, W32, Extra, TimeWord, DateWord, DosDateToTmuDate, Unpacked, Narrow;
    FixedReads1(d, p, c);
    FixedReads2(d, p, c);
    WordsJoin(d, p + 12);
    StampReads(c.stamp);
    assert Long(d, p + 12) == TimeWord(c.stamp) + 0x1_0000 * DateWord(c.stamp);
  }

  // ---------- the extra field ----------

  lemma BlockReads(d: seq<Byte>, q: nat, id: nat, data: seq<Byte>, rest: seq<Byte>)
    requires id < TWO16 && |data| < TWO16 && At(d, q, (W16(id) + W16(|data|) + data) + rest)
    ensures Short(d, q) == id && Short(d, q + 2) == |data| && At(d, q + 4, data) && At(d, q + 4 + |data|, rest)
  {
    hide W16, Short, At;
    var h := W16(id) + W16(|data|);
    assert (W16(id) + W16(|data|) + data) + rest == h + (data + rest);
    AtSplits(d, q, h, data + rest);
    AtSplits(d, q + 4, data, rest);
    assert h[0..2] == W16(id) && h[2..4] == W16(|data|);
    FieldReads16(d, q, h, 0, id);
    FieldReads16(d, q, h, 2, |data|);
  }

  lemma {:induction false} BlocksStand(d: seq<Byte>, q: nat, bs: seq<Block>)
    requires At(d, q, BlocksBytes(bs)) && |BlocksBytes(bs)| < TWO16
    requires forall b :: b in bs ==> b.id < TWO16 && b.id != 1
    ensures Blocks(d, q, |BlocksBytes(bs)|) && NoZip64Block(d, q, |BlocksBytes(bs)|)
    decreases |bs|
  {
    hide W16, Short, At;
    if bs == [] {
    } else {
      var b, rest := bs[0], BlocksBytes(bs[1..]);
      BlockReads(d, q, b.id, b.data, rest);
      BlocksStand(d, q + 4 + |b.data|, bs[1..]);
    }
  }

  lemma LongsReadWide(d: seq<Byte>, p: nat)
    requires p + 8 <= |d|
    ensures Long64(d, p) == R32(d, p) + TWO32 * R32(d, p + 4)
  {
  }

  lemma WideReads(d: seq<Byte>, p: nat, n: nat)
    requires At(d, p, W64(n)) && n < TWO64
    ensures Long64(d, p) == n
  {
    hide W32, R32, Long64;
    AtSplits(d, p, W32(n % TWO32), W32(n / TWO32));
    WrittenFieldReads32(d, p, n % TWO32);
    WrittenFieldReads32(d, p + 4, n / TWO32);
    LongsReadWide(d, p);
  }

  // A value that needs 64 bits is taken from the block, any other from the header.
  lemma WidenedReads(d: seq<Byte>, p: nat, n: nat, rest: seq<Byte>)
    requires At(d, p, Wide(n) + rest) && n < TWO64
    ensures Widened(d, p, Narrow(n), 0xFFFF_FFFF) == (n, p + |Wide(n)|)
    ensures At(d, p + |Wide(n)|, rest)
  {
    hide W64, Long64;
    AtSplits(d, p, Wide(n), rest);
    if n >= 0xFFFF_FFFF {
      WideReads(d, p, n);
    }
  }

  lemma Zip64BlockReads(d: seq<Byte>, p: nat, c: Item)
    requires Fits(c) && At(d, p, WideBytes(c))
    ensures Zip64Fields(d, p, NarrowShown(c), 0xFFFF_FFFF) == (Shown(c), p + |WideBytes(c)|)
  {
    hide At, Widened, Wide, Narrow, TimeWord, DateWord, Extra, Unpacked;
    var u, z, o := Wide(c.uncompressed), Wide(c.compressed), Wide(c.offset);
    assert WideBytes(c) == u + (z + (o + []));
    WidenedReads(d, p, c.uncompressed, z + (o + []));
    WidenedReads(d, p + |u|, c.compressed, o + []);
    WidenedReads(d, p + |u| + |z|, c.offset, []);
  }

  // A value of more than 32 bits is only read back where unsigned long has 32 bits.
  predicate Decodable(c: Item, ulongMax: nat)
  {
    ulongMax >= 0xFFFF_FFFF && (WideBytes(c) == [] || ulongMax == 0xFFFF_FFFF)
  }

  lemma NarrowIsPlain(c: Item)
    requires Fits(c) && WideBytes(c) == []
    ensures Shown(c) == NarrowShown(c)
  {
    hide W64, TimeWord, DateWord, Extra, Unpacked;
    assert |WideBytes(c)| == |Wide(c.uncompressed)| + |Wide(c.compressed)| + |Wide(c.offset)|;
  }

  lemma NeededIsWritten(c: Item)
    requires Fits(c)
    ensures Zip64Needed(NarrowShown(c), 0xFFFF_FFFF) == |WideBytes(c)| <= 24
  {
    hide W64, TimeWord, DateWord, Extra, Unpacked;
  }

  // The walk over the extra field finds the wide values and ends where the field ends.
  lemma ExtraReads(d: seq<Byte>, q: nat, c: Item, ulongMax: nat)
    requires Fits(c) && Decodable(c, ulongMax) && At(d, q, Extra(c)) && q + |Extra(c)| + 4 <= |d|
    ensures ExtraWalk(d, q, 0, |Extra(c)|, NarrowShown(c), ulongMax) == (Shown(c), q + |Extra(c)|)
  {
    hide W16, At, WideBytes, BlocksBytes, Blocks, NoZip64Block, ExtraWalk, Zip64Fields, Zip64Needed, NarrowShown,
        Shown, Short, Fits;
    var bs, wide := BlocksBytes(c.blocks), WideBytes(c);
    BlocksFit(c);
    if wide == [] {
      assert Extra(c) == bs;
      BlocksStand(d, q, c.blocks);
      WalkEndsWithField(d, q, 0, |bs|, NarrowShown(c), ulongMax);
      NarrowIsPlain(c);
    } else {
      AtSplits(d, q, bs, W16(1) + W16(|wide|) + wide);
      BlocksStand(d, q, c.blocks);
      var block := W16(1) + W16(|wide|) + wide;
      assert block + [] == block;
      BlockReads(d, q + |bs|, 1, wide, []);
      NeededIsWritten(c);
      Zip64BlockIsNotSkipped(d, q, |bs|, |wide|, |Extra(c)|, NarrowShown(c), ulongMax);
      Zip64BlockReads(d, q + |bs| + 4, c);
      WalkStops(d, q + |Extra(c)|, |Extra(c)|, Shown(c), ulongMax);
    }
  }

  lemma BlocksFit(c: Item)
    requires Fits(c)
    ensures |BlocksBytes(c.blocks)| <= |Extra(c)| < TWO16 && |WideBytes(c)| < TWO16
    ensures forall b :: b in c.blocks ==> b.id < TWO16 && b.id != 1
  {
    hide BlocksBytes, Wide;
  }

  lemma WalkStops(d: seq<Byte>, p: nat, size: nat, e: Entry, ulongMax: nat)
    ensures ExtraWalk(d, p, size, size, e, ulongMax) == (e, p)
  {
  }

  // ---------- a whole entry ----------

  lemma ItemParts(d: seq<Byte>, p: nat, c: Item)
    requires At(d, p, ItemBytes(c))
    ensures var q := p + 46;
            && At(d, p, FixedPart(c)) && At(d, q, c.name) && At(d, q + |c.name|, Extra(c))
            && At(d, q + |c.name| + |Extra(c)|, c.comment)
            && |ItemBytes(c)| == 46 + |c.name| + |Extra(c)| + |c.comment|
  {
    hide FixedPart, Extra, At;
    assert ItemBytes(c) == FixedPart(c) + (c.name + (Extra(c) + c.comment));
    AtSplits(d, p, FixedPart(c), c.name + (Extra(c) + c.comment));
    AtSplits(d, p + 46, c.name, Extra(c) + c.comment);
    AtSplits(d, p + 46 + |c.name|, Extra(c), c.comment);
  }

  // What fits into a buffer; None is a null buffer.
  function Front(s: seq<Byte>, request: Option<nat>): seq<Byte>
  {
    if request.None? then [] else s[..Min(request.value, |s|)]
  }

  lemma SectionReads(d: seq<Byte>, p: nat, s: seq<Byte>, request: Option<nat>)
    requires At(d, p, s)
    ensures var n := Wanted(request, |s|);
            CanRead(d, p, n) && Section(d, p, n) == Front(s, request)
  {
    var n := Wanted(request, |s|);
    if n > 0 {
      SubSlice(d, p, p + |s|, 0, n);
    }
  }

  // A written entry reads back whole: all its values, and its name, extra field and comment as far
  // as the buffers go.
  lemma ItemReads(d: seq<Byte>, p: nat, c: Item, ulongMax: nat, name: Option<nat>, extra: Option<nat>,
          comment: Option<nat>)
    requires Fits(c) && Decodable(c, ulongMax) && At(d, p, ItemBytes(c)) && p + |ItemBytes(c)| + 4 <= |d|
    ensures GetInfo(d, p, ulongMax, name, extra, comment)
         == Info(Shown(c), Front(c.name, name), Front(Extra(c), extra), Front(c.comment, comment))
    ensures GetEntry(d, p, ulongMax) == Some(Shown(c))
  {
    hide FixedPart, Extra, At, HeaderAt, Long, ExtraWalk, Front, Wanted, CanRead, Section, TimeWord, DateWord,
        Unpacked, Fits, Decodable, ItemBytes;
    ItemParts(d, p, c);
    FixedPartReads(d, p, c);
    var q := p + 46;
    assert NameStart(d, p) == q;
    ExtraReads(d, q + |c.name|, c, ulongMax);
    SectionReads(d, q, c.name, name);
    SectionReads(d, q + |c.name|, Extra(c), extra);
    SectionReads(d, q + |c.name| + |Extra(c)|, c.comment, comment);
  }

  // ---------- the end record ----------

  datatype EndFields = EndFields(disk: nat, diskWithCD: nat, number: nat, numberCD: nat, size: nat, offset: nat)

  function EndBytes(e: EndFields, comment: seq<Byte>): (s: seq<Byte>)
    ensures |s| == 22 + |comment|
  {
    W32(0x0605_4b50) + W16(e.disk) + W16(e.diskWithCD) + W16(e.number) + W16(e.numberCD) + W32(e.size)
    + W32(e.offset) + W16(|comment|) + comment
  }

  predicate EndFits(e: EndFields, comment: seq<Byte>)
  {
    && e.disk < TWO16 && e.diskWithCD < TWO16 && e.number < TWO16 && e.numberCD < TWO16 && e.size < TWO32
    && e.offset < TWO32 && |comment| < TWO16
  }

  // The end record is the whole of d from p on, and neither it nor its comment holds its signature
  // a second time. No Zip64 locator shows up in the last 65535 bytes.
  ghost predicate EndsWith(d: seq<Byte>, p: nat, e: EndFields, comment: seq<Byte>)
  {
    && p <= |d| && d[p..] == EndBytes(e, comment) && EndFits(e, comment)
    && PlainEndRecord(EndBytes(e, comment)) && LastSig(d, 6, 7) == 0
  }

  lemma EndSlices(e: EndFields, comment: seq<Byte>)
    ensures var h := EndBytes(e, comment);
            && h[0..4] == W32(0x0605_4b50) && h[4..6] == W16(e.disk) && h[6..8] == W16(e.diskWithCD)
            && h[8..10] == W16(e.number) && h[10..12] == W16(e.numberCD) && h[12..16] == W32(e.size)
            && h[16..20] == W32(e.offset) && h[20..22] == W16(|comment|) && h[22..] == comment
  {
    hide W16, W32;
  }

  lemma EndReads(d: seq<Byte>, p: nat, e: EndFields, comment: seq<Byte>)
    requires p <= |d| && d[p..] == EndBytes(e, comment) && EndFits(e, comment)
    ensures Long(d, p) == 0x0605_4b50 && Short(d, p + 4) == e.disk && Short(d, p + 6) == e.diskWithCD
    ensures Short(d, p + 8) == e.number && Short(d, p + 10) == e.numberCD && Long(d, p + 12) == e.size
    ensures Long(d, p + 16) == e.offset && Short(d, p + 20) == |comment|
  {
    hide W16, W32, Short, Long, EndBytes;
    var h := EndBytes(e, comment);
    assert At(d, p, h);
    EndSlices(e, comment);
    FieldReads32(d, p, h, 0, 0x0605_4b50);
    FieldReads16(d, p, h, 4, e.disk);
    FieldReads16(d, p, h, 6, e.diskWithCD);
    FieldReads16(d, p, h, 8, e.number);
    FieldReads16(d, p, h, 10, e.numberCD);
    FieldReads32(d, p, h, 12, e.size);
    FieldReads32(d, p, h, 16, e.offset);
    FieldReads16(d, p, h, 20, |comment|);
  }

  lemma SignatureReads(d: seq<Byte>, p: nat)
    requires p + 4 <= |d| && Long(d, p) == 0x0605_4b50
    ensures SigAt(d, p, 5, 6)
  {
    assert R32(d, p) == (d[p] as nat) + 0x100 * (d[p + 1] as nat) + 0x1_0000 * (d[p + 2] as nat)
                        + 0x100_0000 * (d[p + 3] as nat);
  }

  // The backward search goes no further than 65535 bytes: a record with a comment of more than
  // 65513 bytes is not found.
  lemma EndIsFound(d: seq<Byte>, p: nat, e: EndFields, comment: seq<Byte>)
    requires EndsWith(d, p, e, comment)
    ensures LastSig(d, 5, 6) == if p > 0 && |comment| <= 65513 then p else 0
  {
    hide EndBytes, LastSig, SigAt, Long, Short;
    EndReads(d, p, e, comment);
    SignatureReads(d, p);
    var s := EndBytes(e, comment);
    assert d[p..p + |s|] == s;
    forall q: nat | p < q ensures !SigAt(d, q, 5, 6) {
      SigInBlock(d, p, |s|, q - p, 5, 6);
      SigInside(d, q, 5, 6);
    }
    LastSigIsTheLast(d, 5, 6, if p > 0 && |comment| <= 65513 then p else 0);
  }

  lemma SigInside(d: seq<Byte>, q: nat, a: Byte, b: Byte)
    ensures q + 4 > |d| ==> !SigAt(d, q, a, b)
  {
  }

  // An archive opens exactly if its end record can be found, names a single disk and one number of
  // entries, and leaves room for the directory in front of it. What it says is what is opened:
  // bytes that the directory does not account for are counted as a prefix.
  lemma WrittenEndOpens(d: seq<Byte>, p: nat, e: EndFields, comment: seq<Byte>, ulongMax: nat)
    requires EndsWith(d, p, e, comment)
    ensures OpenArchive(d, ulongMax)
         == if p > 0 && |comment| <= 65513 && e.disk == 0 && e.diskWithCD == 0 && e.numberCD == e.number
               && e.offset + e.size <= p
            then Some(Archive(d, ulongMax, p - (e.offset + e.size), e.number, |comment|, p, e.size, e.offset, false))
            else None
  {
    hide EndBytes, LastSig, Long, Short, Long64, PlainEndRecord;
    EndIsFound(d, p, e, comment);
    EndReads(d, p, e, comment);
    assert SearchCentralDir64(d) == 0;
  }

  // ---------- the Zip64 end record ----------

  function Zip64Record(version: nat, e: EndFields): (s: seq<Byte>)
    ensures |s| == 56
  {
    W32(0x0606_4b50) + W64(44) + W16(version) + W16(version) + W32(e.disk) + W32(e.diskWithCD)
    + W64(e.number) + W64(e.numberCD) + W64(e.size) + W64(e.offset)
  }

  // Its locator: the disk it is on, its position, and the number of disks
  function Locator(disk: nat, at: nat, disks: nat): (s: seq<Byte>)
    ensures |s| == 20
  {
    W32(0x0706_4b50) + W32(disk) + W64(at) + W32(disks)
  }

  predicate Zip64Fits(e: EndFields)
  {
    && e.disk < TWO32 && e.diskWithCD < TWO32 && e.number < TWO64 && e.numberCD < TWO64 && e.size < TWO64
    && e.offset < TWO64
  }

  lemma FieldReads64(d: seq<Byte>, p: nat, h: seq<Byte>, k: nat, n: nat)
    requires At(d, p, h) && k + 8 <= |h| && h[k..k + 8] == W64(n) && n < TWO64
    ensures Long64(d, p + k) == n
  {
    hide W64, Long64;
    SubSlice(d, p, p + |h|, k, k + 8);
    WideReads(d, p + k, n);
  }

  // The locator is the last one in the last 65535 bytes of d.
  ghost predicate LocatorAt(d: seq<Byte>, q: nat, disk: nat, at: nat, disks: nat)
  {
    && At(d, q, Locator(disk, at, disks)) && disk < TWO32 && at < TWO64 && disks < TWO32
    && 1 <= q && |d| <= q + 65535 && forall p: nat :: q < p ==> !SigAt(d, p, 6, 7)
  }

  lemma LocatorReads(d: seq<Byte>, q: nat, disk: nat, at: nat, disks: nat)
    requires LocatorAt(d, q, disk, at, disks)
    ensures SigAt(d, q, 6, 7) && Long(d, q + 4) == disk && Long64(d, q + 8) == at && Long(d, q + 16) == disks
  {
    hide W32, W64, Long, Long64;
    var h := Locator(disk, at, disks);
    assert h[0..4] == W32(0x0706_4b50) && h[4..8] == W32(disk) && h[8..16] == W64(at) && h[16..20] == W32(disks);
    FieldReads32(d, q, h, 4, disk);
    FieldReads64(d, q, h, 8, at);
    FieldReads32(d, q, h, 16, disks);
    LocatorSigned();
    SubSlice(d, q, q + |h|, 0, 4);
    assert d[q..q + 4] == W32(0x0706_4b50);
    assert d[q] == d[q..q + 4][0] && d[q + 1] == d[q..q + 4][1] && d[q + 2] == d[q..q + 4][2]
        && d[q + 3] == d[q..q + 4][3];
  }

  lemma LocatorSigned()
    ensures W32(0x0706_4b50) == [0x50, 0x4b, 6, 7]
  {
  }

  lemma Zip64RecordReads(d: seq<Byte>, p: nat, version: nat, e: EndFields)
    requires At(d, p, Zip64Record(version, e)) && Zip64Fits(e)
    ensures Long(d, p) == 0x0606_4b50 && Long(d, p + 16) == e.disk && Long(d, p + 20) == e.diskWithCD
    ensures Long64(d, p + 24) == e.number && Long64(d, p + 32) == e.numberCD
    ensures Long64(d, p + 40) == e.size && Long64(d, p + 48) == e.offset
  {
    hide W16, W32, W64, Long, Long64;
    var h := Zip64Record(version, e);
    assert h[0..4] == W32(0x0606_4b50) && h[16..20] == W32(e.disk) && h[20..24] == W32(e.diskWithCD);
    assert h[24..32] == W64(e.number) && h[32..40] == W64(e.numberCD) && h[40..48] == W64(e.size)
        && h[48..56] == W64(e.offset);
    hide At, Zip64Record;
    FieldReads32(d, p, h, 0, 0x0606_4b50);
    FieldReads32(d, p, h, 16, e.disk);
    FieldReads32(d, p, h, 20, e.diskWithCD);
    FieldReads64(d, p, h, 24, e.number);
    FieldReads64(d, p, h, 32, e.numberCD);
    FieldReads64(d, p, h, 40, e.size);
    FieldReads64(d, p, h, 48, e.offset);
  }

  // A locator counts if it names the first of one disks and a record that is there, not at the very
  // front of the file.
  lemma LocatorLeads(d: seq<Byte>, q: nat, disk: nat, at: nat, disks: nat)
    requires LocatorAt(d, q, disk, at, disks)
    ensures SearchCentralDir64(d) == if disk == 0 && disks == 1 && Long(d, at) == 0x0606_4b50 then at else 0
  {
    hide LastSig, Long, Long64, SigAt, Locator;
    LocatorReads(d, q, disk, at, disks);
    LastSigIsTheLast(d, 6, 7, q);
  }

  // An archive with a locator opens exactly if its Zip64 record names a single disk and one number of
  // entries and the directory ends in front of the record; the plain end record and its comment then
  // do not count.
  lemma WrittenZip64Opens(d: seq<Byte>, q: nat, at: nat, version: nat, e: EndFields, ulongMax: nat)
    requires LocatorAt(d, q, 0, at, 1) && at > 0 && At(d, at, Zip64Record(version, e)) && Zip64Fits(e)
    ensures var dirEnd := (e.offset + e.size) % TWO64;
            OpenArchive(d, ulongMax)
            == if e.disk == 0 && e.diskWithCD == 0 && e.numberCD == e.number && dirEnd <= at
               then Some(Archive(d, ulongMax, at - dirEnd, e.number, 0, at, e.size, e.offset, true))
               else None
  {
    hide LastSig, Long, Long64, Short, LocatorAt, Zip64Record, SearchCentralDir64;
    LocatorLeads(d, q, 0, at, 1);
    Zip64RecordReads(d, at, version, e);
  }

  // ---------- a whole archive ----------

  function ItemsBytes(cs: seq<Item>): seq<Byte>
  {
    if cs == [] then [] else ItemBytes(cs[0]) + ItemsBytes(cs[1..])
  }

  lemma {:induction false} ItemStands(d: seq<Byte>, p: nat, cs: seq<Item>, k: nat)
    requires At(d, p, ItemsBytes(cs)) && k < |cs|
    ensures var start := |ItemsBytes(cs[..k])|;
            && At(d, p + start, ItemBytes(cs[k]))
            && |ItemsBytes(cs[..k + 1])| == start + |ItemBytes(cs[k])| <= |ItemsBytes(cs)|
    decreases k
  {
    hide ItemBytes, At;
    var first := ItemBytes(cs[0]);
    AtSplits(d, p, first, ItemsBytes(cs[1..]));
    if k == 0 {
      assert cs[..1][1..] == [] && cs[..0] == [];
      assert ItemsBytes(cs[..1]) == first + ItemsBytes([]);
    } else {
      ItemStands(d, p + |first|, cs[1..], k - 1);
      assert cs[..k][1..] == cs[1..][..k - 1] && cs[..k + 1][1..] == cs[1..][..k];
    }
  }

  // Local entries or whatever else, a directory of cs behind them, and the end record. The directory
  // may stand further back than its offset says: then the archive has a prefix.
  ghost predicate Written(d: seq<Byte>, front: seq<Byte>, cs: seq<Item>, offset: nat, comment: seq<Byte>,
          ulongMax: nat)
  {
    var dir := ItemsBytes(cs);
    && d == front + dir + EndBytes(EndFields(0, 0, |cs|, |cs|, |dir|, offset), comment)
    && EndsWith(d, |front| + |dir|, EndFields(0, 0, |cs|, |cs|, |dir|, offset), comment)
    && 0 < |cs| < 0xFFFF && offset <= |front| && |comment| <= 65513
    && forall c :: c in cs ==> Fits(c) && Decodable(c, ulongMax)
  }

  function WrittenArchive(d: seq<Byte>, front: seq<Byte>, cs: seq<Item>, offset: nat, comment: seq<Byte>,
          ulongMax: nat): Archive
    requires offset <= |front|
  {
    var dir := ItemsBytes(cs);
    Archive(d, ulongMax, |front| - offset, |cs|, |comment|, |front| + |dir|, |dir|, offset, false)
  }

  lemma ItemsTakeRoom(cs: seq<Item>)
    ensures cs != [] ==> |ItemsBytes(cs)| >= 46
  {
    hide FixedPart, Extra;
  }

  lemma WrittenOpens(d: seq<Byte>, front: seq<Byte>, cs: seq<Item>, offset: nat, comment: seq<Byte>, ulongMax: nat)
    requires Written(d, front, cs, offset, comment, ulongMax)
    ensures OpenArchive(d, ulongMax) == Some(WrittenArchive(d, front, cs, offset, comment, ulongMax))
  {
    hide EndsWith, EndBytes, ItemsBytes, OpenArchive;
    var dir := ItemsBytes(cs);
    ItemsTakeRoom(cs);
    WrittenEndOpens(d, |front| + |dir|, EndFields(0, 0, |cs|, |cs|, |dir|, offset), comment, ulongMax);
  }

  // Where the k-th entry stands in the directory
  function ItemStart(cs: seq<Item>, offset: nat, k: nat): nat
    requires k <= |cs|
  {
    offset + |ItemsBytes(cs[..k])|
  }

  lemma WrittenEntryShows(d: seq<Byte>, front: seq<Byte>, cs: seq<Item>, offset: nat, comment: seq<Byte>,
          ulongMax: nat, k: nat)
    requires Written(d, front, cs, offset, comment, ulongMax) && k < |cs|
    ensures var p := ItemStart(cs, offset, k) + (|front| - offset);
            && At(d, p, ItemBytes(cs[k])) && p + |ItemBytes(cs[k])| + 4 <= |d|
            && ItemStart(cs, offset, k + 1) == ItemStart(cs, offset, k) + |ItemBytes(cs[k])|
            && Fits(cs[k]) && Decodable(cs[k], ulongMax)
  {
    hide EndsWith, EndBytes, ItemsBytes, ItemBytes, Decodable, Fits;
    var dir, end := ItemsBytes(cs), EndBytes(EndFields(0, 0, |cs|, |cs|, |ItemsBytes(cs)|, offset), comment);
    assert d == front + (dir + end);
    assert At(d, 0, front + (dir + end));
    AtSplits(d, 0, front, dir + end);
    AtSplits(d, |front|, dir, end);
    ItemStands(d, |front|, cs, k);
    assert cs[k] in cs;
  }

  lemma WrittenHasRoom(d: seq<Byte>, front: seq<Byte>, cs: seq<Item>, offset: nat, comment: seq<Byte>, ulongMax: nat)
    requires Written(d, front, cs, offset, comment, ulongMax)
    ensures offset <= |front|
  {
  }

  lemma NoItems()
    ensures forall cs: seq<Item> :: ItemsBytes(cs[..0]) == []
  {
  }

  lemma ShownSize(c: Item)
    ensures EntrySize(Shown(c)) == |ItemBytes(c)|
  {
    hide FixedPart, Extra, TimeWord, DateWord, Unpacked;
  }

  lemma {:induction false} WrittenEntriesFollow(d: seq<Byte>, front: seq<Byte>, cs: seq<Item>, offset: nat,
          comment: seq<Byte>, ulongMax: nat, k: nat)
    requires Written(d, front, cs, offset, comment, ulongMax) && k <= |cs|
    ensures var dir := DirectoryOf(WrittenArchive(d, front, cs, offset, comment, ulongMax));
            EntryPos(dir, k) == ItemStart(cs, offset, k)
            && (k < |cs| ==> Decodes(dir, k) && dir.entryAt(EntryPos(dir, k)) == Some(Shown(cs[k])))
    decreases k
  {
    hide Written, ItemBytes, Decodable, Fits, GetInfo, GetEntry, ItemsBytes, Shown;
    WrittenHasRoom(d, front, cs, offset, comment, ulongMax);
    var a := WrittenArchive(d, front, cs, offset, comment, ulongMax);
    var dir := DirectoryOf(a);
    if k == 0 {
      NoItems();
    } else {
      WrittenEntriesFollow(d, front, cs, offset, comment, ulongMax, k - 1);
      WrittenEntryShows(d, front, cs, offset, comment, ulongMax, k - 1);
      ShownSize(cs[k - 1]);
    }
    if k < |cs| {
      WrittenEntryShows(d, front, cs, offset, comment, ulongMax, k);
      var p := ItemStart(cs, offset, k) + a.byteBefore;
      ItemReads(d, p, cs[k], ulongMax, Some(UNZ_MAXFILENAMEINZIP), None, None);
      assert dir.entryAt(EntryPos(dir, k)) == GetEntry(d, p, ulongMax);
    }
  }

  lemma WrittenEnumerates(d: seq<Byte>, front: seq<Byte>, cs: seq<Item>, offset: nat, comment: seq<Byte>,
          ulongMax: nat)
    requires Written(d, front, cs, offset, comment, ulongMax)
    ensures Enumerates(DirectoryOf(WrittenArchive(d, front, cs, offset, comment, ulongMax)), |cs|)
  {
    hide EndsWith, ItemsBytes, ItemBytes, Fits, Decodable, DirectoryOf, EntryPos, Shown, ItemStart;
    var a := WrittenArchive(d, front, cs, offset, comment, ulongMax);
    var dir := DirectoryOf(a);
    DirectoryHasNumbers(a);
    forall k: nat | k < |cs|
      ensures Decodes(dir, k)
      ensures k + 1 < |cs| ==>
                Decodes(dir, k + 1) && GoToNext(dir, CursorAt(dir, k)) == (UNZ_OK, CursorAt(dir, k + 1))
    {
      WrittenEntriesFollow(d, front, cs, offset, comment, ulongMax, k);
      if k + 1 < |cs| {
        WrittenEntriesFollow(d, front, cs, offset, comment, ulongMax, k + 1);
        NextEntryPos(dir, k);
      }
    }
    assert Decodes(dir, 0) && EntryPos(dir, 0) == dir.offset by {
      FirstEntryPos(dir);
    }
    assert Decodes(dir, |cs| - 1);
  }

  lemma DirectoryHasNumbers(a: Archive)
    ensures DirectoryOf(a).numberEntry == a.numberEntry && DirectoryOf(a).offset == a.offsetCentralDir
  {
  }

  lemma FirstEntryPos(dir: Directory)
    ensures EntryPos(dir, 0) == dir.offset
  {
  }

  lemma NextEntryPos(dir: Directory, k: nat)
    requires Decodes(dir, k)
    ensures EntryPos(dir, k + 1) == EntryPos(dir, k) + EntrySize(CursorAt(dir, k).entry)
  {
  }

  // A written archive, behind any prefix, opens; first and k times next from anywhere lead to its k-th
  // entry, of which every value and as much of name, extra field and comment is shown as fits the
  // buffers; and the comment of the archive is that of its end record.
  lemma ArchiveReadsBack(d: seq<Byte>, front: seq<Byte>, cs: seq<Item>, offset: nat, comment: seq<Byte>, ulongMax: nat,
          step: CrcStep, s: Session, k: nat, buffers: (Option<nat>, Option<nat>, Option<nat>), n: nat)
    requires Written(d, front, cs, offset, comment, ulongMax) && k < |cs|
    ensures OpenArchive(d, ulongMax).Some?
    ensures var a := OpenArchive(d, ulongMax).value;
            var c := cs[k];
            var (end, replies) :=
              RunSession(a, step, s, Walk(k) + [FileInfoCall(buffers.0, buffers.1, buffers.2), GlobalComment(n)]);
            && a.byteBefore == |front| - offset && end.cursor.entry == Shown(c)
            && replies == Successes(k)
                          + [Described(Info(Shown(c), Front(c.name, buffers.0), Front(Extra(c), buffers.1),
                                            Front(c.comment, buffers.2))),
                             Comment(Some(comment[..Min(n, |comment|)]))]
  {
    hide EndsWith, ItemsBytes, ItemBytes, Fits, Decodable, DirectoryOf, EntryPos, Shown, ItemStart, Enumerates, Walk,
        OpenArchive, RunSession, GetInfo, Written, Front, Extra, Successes, Decodes;
    WrittenHasRoom(d, front, cs, offset, comment, ulongMax);
    var a := WrittenArchive(d, front, cs, offset, comment, ulongMax);
    WrittenOpens(d, front, cs, offset, comment, ulongMax);
    WrittenEnumerates(d, front, cs, offset, comment, ulongMax);
    WalkReaches(a, step, s, |cs|, k);
    var at := s.(cursor := CursorAt(DirectoryOf(a), k));
    var info := FileInfoCall(buffers.0, buffers.1, buffers.2);
    WrittenEntriesFollow(d, front, cs, offset, comment, ulongMax, k);
    WrittenEntryShows(d, front, cs, offset, comment, ulongMax, k);
    ItemReads(d, ItemStart(cs, offset, k) + a.byteBefore, cs[k], ulongMax, buffers.0, buffers.1, buffers.2);
    WrittenCommentReads(d, front, cs, offset, comment, ulongMax, step, at, n);
    RunTwo(a, step, at, info, GlobalComment(n));
    RunJoins(a, step, s, Walk(k), [info, GlobalComment(n)]);
  }

  lemma RunTwo(a: Archive, step: CrcStep, s: Session, first: Call, second: Call)
    ensures var (mid, r1) := Do(a, step, s, first);
            var (end, r2) := Do(a, step, mid, second);
            RunSession(a, step, s, [first, second]) == (end, [r1, r2])
  {
    hide Do;
    var (mid, r1) := Do(a, step, s, first);
    var (_, r2) := Do(a, step, mid, second);
    RunOne(a, step, s, first);
    RunOne(a, step, mid, second);
    RunJoins(a, step, s, [first], [second]);
    assert [first] + [second] == [first, second] && [r1] + [r2] == [r1, r2];
  }

  lemma WrittenCommentReads(d: seq<Byte>, front: seq<Byte>, cs: seq<Item>, offset: nat, comment: seq<Byte>,
          ulongMax: nat, step: CrcStep, s: Session, n: nat)
    requires Written(d, front, cs, offset, comment, ulongMax)
    ensures Do(WrittenArchive(d, front, cs, offset, comment, ulongMax), step, s, GlobalComment(n))
         == (s, Comment(Some(comment[..Min(n, |comment|)])))
  {
    hide ItemsBytes, Fits, Decodable, PlainEndRecord, LastSig, W16, W32;
    var e := EndFields(0, 0, |cs|, |cs|, |ItemsBytes(cs)|, offset);
    var p := |front| + |ItemsBytes(cs)|;
    EndSlices(e, comment);
    assert d[p..][22..] == comment;
    assert d[p + 22..p + 22 + |comment|] == comment;
    SectionReads(d, p + 22, comment, Some(n));
  }

  // ---------- the hypotheses can be met ----------

  // An empty entry with the name "a", and a comment "hi" on its archive
  ghost predicate Tiny(c: Item)
  {
    && c.version == c.versionNeeded == 20 && c.flag == c.method_ == c.crc == 0 && c.stamp == Stamp(0, 0, 0, 0, 0, 0)
    && c.compressed == c.uncompressed == c.disk == c.internalFa == c.externalFa == c.offset == 0
    && c.name == [97] && c.blocks == [] && c.comment == []
  }

  const HI: seq<Byte> := [104, 105]

  lemma SmallFields()
    ensures W16(0) == [0, 0] && W16(1) == [1, 0] && W16(2) == [2, 0] && W16(20) == [20, 0]
    ensures W32(0) == [0, 0, 0, 0] && W32(47) == [47, 0, 0, 0]
    ensures W32(0x0201_4b50) == [0x50, 0x4b, 1, 2] && W32(0x0605_4b50) == [0x50, 0x4b, 5, 6]
  {
  }

  lemma TinyFits(c: Item)
    requires Tiny(c)
    ensures Fits(c) && WideBytes(c) == [] && Extra(c) == []
    ensures TimeWord(c.stamp) == 0 && DateWord(c.stamp) == 0
  {
    hide W16, W32;
  }

  lemma TinyIsSmall(c: Item)
    requires Tiny(c)
    ensures 7 !in ItemBytes(c) && |ItemBytes(c)| == 47
  {
    hide W16, W32, TimeWord, DateWord, Extra;
    SmallFields();
    TinyFits(c);
  }

  lemma OneEndIsPlain(e: EndFields)
    requires e == EndFields(0, 0, 1, 1, 47, 0)
    ensures 7 !in EndBytes(e, HI) && PlainEndRecord(EndBytes(e, HI)) && EndFits(e, HI)
  {
    hide W16, W32;
    SmallFields();
    assert EndBytes(e, HI) == [0x50, 0x4b, 5, 6, 0, 0, 0, 0, 1, 0, 1, 0, 47, 0, 0, 0, 0, 0, 0, 0, 2, 0, 104, 105];
  }

  lemma OneEntryQualifies(c: Item, ulongMax: nat)
    requires Tiny(c) && ulongMax >= 0xFFFF_FFFF
    ensures var e := EndFields(0, 0, 1, 1, 47, 0);
            Written(ItemBytes(c) + EndBytes(e, HI), [], [c], 0, HI, ulongMax)
  {
    hide ItemBytes, EndBytes, LastSig, PlainEndRecord, Fits, WideBytes, Extra, Tiny;
    var e := EndFields(0, 0, 1, 1, 47, 0);
    TinyFits(c);
    TinyIsSmall(c);
    OneEndIsPlain(e);
    var dir, end := ItemBytes(c), EndBytes(e, HI);
    assert [c][1..] == [] && ItemsBytes([c]) == dir + ItemsBytes([]) == dir;
    assert (dir + end)[47..] == end && [] + dir + end == dir + end;
    LastSigIsTheLast(dir + end, 6, 7, 0);
  }
}
