/** The archive of flash algorithms: entries of tagged records behind a header whose 16-bit length leads to
    the next entry; the writer, and the look-up by device name. */
module Archive {
  import opened Words
  import FlashIface

  const TLV_ALGO_HDR: nat := 0
  const TLV_ALGO_INFO: nat := 1
  const TLV_SECTOR_INFO: nat := 2
  const TLV_FLASH_REGION: nat := 3
  const TLV_RAM_REGION: nat := 4

  const TLV_SIZE: nat := 4
  const INFO_SIZE: nat := 8
  const SECTOR_SIZE: nat := 8
  const REGION_SIZE: nat := 64

  datatype Program = Program(
    init: u32, uninit: u32, eraseChip: u32, eraseSector: u32, programPage: u32, verify: u32,
    breakpoint: u32, staticBase: u32, stackPointer: u32,
    programBuffer: u32, programBufferSize: u32, algoStart: u32, algoSize: u32,
    blob: Option<seq<byte>>)

  const NO_PROGRAM := Program(0, 0, 0, 0, 0, 0, 0, 0, 0, 0, 0, 0, 0, None)

  datatype Region = Region(start: u32, end: u32, flags: u32, algo: Option<Program>)

  datatype Entry = Entry(
    eraseReset: byte, name: seq<byte>, sectors: seq<FlashIface.SectorInfo>, flash: seq<Region>, ram: seq<Region>)

  /** A blob is as long as its size field says. */
  predicate Sized(r: Region) {
    r.algo.Some? && r.algo.value.blob.Some? ==> |r.algo.value.blob.value| == r.algo.value.algoSize
  }

  /** No size without a blob, and whole words only. */
  predicate Complete(r: Region) {
    && Sized(r)
    && (r.algo.Some? ==>
          r.algo.value.algoSize % 4 == 0 && (r.algo.value.blob.None? ==> r.algo.value.algoSize == 0))
  }

  predicate CString(name: seq<byte>) {
    forall i :: 0 <= i < |name| ==> name[i] != 0
  }

  // ---- the bytes of an entry ----

  function HalfBytes(x: nat): (b: seq<byte>)
    ensures |b| == 2
  {
    [x % 0x100, x / 0x100 % 0x100]
  }

  function Half(b: seq<byte>): nat
    requires |b| == 2
  {
    b[0] as int + 0x100 * b[1] as int
  }

  lemma HalfRoundTrip(x: nat)
    ensures Half(HalfBytes(x)) == x % 0x1_0000
  {
    var q := x / 0x100;
    assert x == 0x100 * q + x % 0x100;
    assert q == 0x100 * (q / 0x100) + q % 0x100;
    assert x == 0x1_0000 * (q / 0x100) + 0x100 * (q % 0x100) + x % 0x100;
  }

  function Tlv(magic: nat, total: nat): (b: seq<byte>)
    ensures |b| == TLV_SIZE
  {
    HalfBytes(magic) + HalfBytes(total)
  }

  function WordsBytes(ws: seq<u32>): (b: seq<byte>)
    ensures |b| == 4 * |ws|
  {
    if ws == [] then [] else WordBytes(ws[0]) + WordsBytes(ws[1..])
  }

  function BlobOf(r: Region): seq<byte> {
    if r.algo.Some? && r.algo.value.blob.Some? then r.algo.value.blob.value else []
  }

  /** The region as it lies on disk. */
  function DiskWords(r: Region): (ws: seq<u32>)
    ensures |ws| == 16
  {
    var p := if r.algo.Some? then r.algo.value else NO_PROGRAM;
    [r.start, r.end, r.flags, p.init, p.uninit, p.eraseChip, p.eraseSector, p.programPage, p.verify,
     p.breakpoint, p.staticBase, p.stackPointer, p.programBuffer, p.programBufferSize, p.algoStart, p.algoSize]
  }

  datatype Record = SectorRecord(info: FlashIface.SectorInfo) | FlashRecord(region: Region) | RamRecord(region: Region)

  function RecordBytes(r: Record): seq<byte> {
    match r
    case SectorRecord(s) => Tlv(TLV_SECTOR_INFO, SECTOR_SIZE) + WordsBytes([s.start, s.size])
    case FlashRecord(g) => Tlv(TLV_FLASH_REGION, REGION_SIZE + |BlobOf(g)|) + WordsBytes(DiskWords(g)) + BlobOf(g)
    case RamRecord(g) => Tlv(TLV_RAM_REGION, REGION_SIZE + |BlobOf(g)|) + WordsBytes(DiskWords(g)) + BlobOf(g)
  }

  function RecordsBytes(rs: seq<Record>): seq<byte> {
    if rs == [] then [] else RecordBytes(rs[0]) + RecordsBytes(rs[1..])
  }

  function Sectors(s: seq<FlashIface.SectorInfo>): (rs: seq<Record>)
    ensures |rs| == |s| && forall i :: 0 <= i < |s| ==> rs[i] == SectorRecord(s[i])
  {
    seq(|s|, i requires 0 <= i < |s| => SectorRecord(s[i]))
  }

  function Flashes(g: seq<Region>): (rs: seq<Record>)
    ensures |rs| == |g| && forall i :: 0 <= i < |g| ==> rs[i] == FlashRecord(g[i])
  {
    seq(|g|, i requires 0 <= i < |g| => FlashRecord(g[i]))
  }

  function Rams(g: seq<Region>): (rs: seq<Record>)
    ensures |rs| == |g| && forall i :: 0 <= i < |g| ==> rs[i] == RamRecord(g[i])
  {
    seq(|g|, i requires 0 <= i < |g| => RamRecord(g[i]))
  }

  function Body(e: Entry): seq<Record> {
    Sectors(e.sectors) + Flashes(e.flash) + Rams(e.ram)
  }

  /** What the header says the regions take: an algorithm counts with its size even if it has no blob. */
  function RegionsTotal(g: seq<Region>): nat {
    if g == [] then 0
    else RegionsTotal(g[..|g| - 1]) + TLV_SIZE + REGION_SIZE
         + (if g[|g| - 1].algo.Some? then g[|g| - 1].algo.value.algoSize else 0)
  }

  function Total(e: Entry): nat {
    2 * TLV_SIZE + INFO_SIZE + |e.name| + 1 + (TLV_SIZE + SECTOR_SIZE) * |e.sectors|
    + RegionsTotal(e.flash) + RegionsTotal(e.ram)
  }

  /** `pad` is what the three padding bytes of the info record happen to hold. */
  function InfoBytes(e: Entry, pad: seq<byte>): seq<byte> {
    [e.eraseReset] + pad + WordBytes(Wrap(|e.name| + 1)) + e.name + [0]
  }

  function EntryBytes(e: Entry, pad: seq<byte>): seq<byte> {
    Tlv(TLV_ALGO_HDR, Total(e)) + Tlv(TLV_ALGO_INFO, INFO_SIZE + |e.name| + 1)
    + InfoBytes(e, pad) + RecordsBytes(Body(e))
  }

  // ---- where everything lies ----

  lemma {:induction false} WordIn(ws: seq<u32>, i: nat)
    requires i < |ws|
    ensures WordsBytes(ws)[4 * i..4 * i + 4] == WordBytes(ws[i])
    decreases i
  {
    var head, rest := WordBytes(ws[0]), WordsBytes(ws[1..]);
    if i > 0 {
      WordIn(ws[1..], i - 1);
      assert (head + rest)[4 * i..4 * i + 4] == rest[4 * (i - 1)..4 * (i - 1) + 4];
    }
  }

  /** The word at offset `at`, least significant byte first. */
  predicate WordIs(b: seq<byte>, at: nat, w: u32) {
    at + 4 <= |b| && Word(b[at..at + 4]) == w
  }

  lemma WordBehindTag(ws: seq<u32>, tag: seq<byte>, tail: seq<byte>, i: nat)
    requires i < |ws| && |tag| == TLV_SIZE
    ensures WordIs(tag + WordsBytes(ws) + tail, 4 + 4 * i, ws[i])
  {
    hide WordsBytes, Word, WordBytes;
    WordIn(ws, i);
    BytesRoundTrip(ws[i]);
    Between(tag, WordsBytes(ws), tail, 4 * i, 4);
  }

  lemma Between(a: seq<byte>, m: seq<byte>, z: seq<byte>, i: nat, n: nat)
    requires i + n <= |m|
    ensures (a + m + z)[|a| + i..|a| + i + n] == m[i..i + n]
  {
  }

  /** A region record: its tag and length, and from byte 4 on the fields in this order; the blob follows at 68. */
  lemma RegionLayout(r: Region, ram: bool)
    ensures var b := RecordBytes(if ram then RamRecord(r) else FlashRecord(r));
            var z := if r.algo.Some? then r.algo.value else NO_PROGRAM;
            && |b| == 68 + |BlobOf(r)| && b[68..] == BlobOf(r)
            && b[..2] == [if ram then 4 else 3, 0]
            && WordIs(b, 4, r.start) && WordIs(b, 8, r.end) && WordIs(b, 12, r.flags)
            && WordIs(b, 16, z.init) && WordIs(b, 20, z.uninit) && WordIs(b, 24, z.eraseChip)
            && WordIs(b, 28, z.eraseSector) && WordIs(b, 32, z.programPage) && WordIs(b, 36, z.verify)
            && WordIs(b, 40, z.breakpoint) && WordIs(b, 44, z.staticBase) && WordIs(b, 48, z.stackPointer)
            && WordIs(b, 52, z.programBuffer) && WordIs(b, 56, z.programBufferSize)
            && WordIs(b, 60, z.algoStart) && WordIs(b, 64, z.algoSize)
  {
    hide WordsBytes, Word, WordBytes, WordIs;
    var tag := Tlv(if ram then TLV_RAM_REGION else TLV_FLASH_REGION, REGION_SIZE + |BlobOf(r)|);
    forall i | 0 <= i < 16 ensures WordIs(tag + WordsBytes(DiskWords(r)) + BlobOf(r), 4 + 4 * i, DiskWords(r)[i]) {
      WordBehindTag(DiskWords(r), tag, BlobOf(r), i);
    }
    var b := RecordBytes(if ram then RamRecord(r) else FlashRecord(r));
    assert b == tag + WordsBytes(DiskWords(r)) + BlobOf(r);
    var ws := DiskWords(r);
    assert WordIs(b, 4 + 4 * 0, ws[0]) && WordIs(b, 4 + 4 * 1, ws[1]) && WordIs(b, 4 + 4 * 2, ws[2]);
    assert WordIs(b, 4 + 4 * 3, ws[3]) && WordIs(b, 4 + 4 * 4, ws[4]) && WordIs(b, 4 + 4 * 5, ws[5]);
    assert WordIs(b, 4 + 4 * 6, ws[6]) && WordIs(b, 4 + 4 * 7, ws[7]) && WordIs(b, 4 + 4 * 8, ws[8]);
    assert WordIs(b, 4 + 4 * 9, ws[9]) && WordIs(b, 4 + 4 * 10, ws[10]) && WordIs(b, 4 + 4 * 11, ws[11]);
    assert WordIs(b, 4 + 4 * 12, ws[12]) && WordIs(b, 4 + 4 * 13, ws[13]) && WordIs(b, 4 + 4 * 14, ws[14]);
    assert WordIs(b, 4 + 4 * 15, ws[15]);
  }

  /** A sector record. */
  lemma SectorLayout(s: FlashIface.SectorInfo)
    ensures var b := RecordBytes(SectorRecord(s));
            |b| == 12 && b[..4] == [2, 0, 8, 0] && WordIs(b, 4, s.start) && WordIs(b, 8, s.size)
  {
    var tag := Tlv(TLV_SECTOR_INFO, SECTOR_SIZE);
    WordBehindTag([s.start, s.size], tag, [], 0);
    WordBehindTag([s.start, s.size], tag, [], 1);
    assert tag + WordsBytes([s.start, s.size]) + [] == tag + WordsBytes([s.start, s.size]);
  }

  /** The front of an entry: the tag with the length, the tag of the info record, the erase flag, the length of the
      name, and at 16 the name with its NUL; behind it the records. */
  lemma EntryLayout(e: Entry, pad: seq<byte>)
    requires |pad| == 3 && |e.name| + 1 < ADDRESS_SPACE
    ensures var b, n := EntryBytes(e, pad), |e.name|;
            && |b| >= 17 + n && b[..2] == [0, 0] && b[4..6] == [1, 0] && b[8] == e.eraseReset
            && WordIs(b, 12, n + 1) && b[16..16 + n] == e.name && b[16 + n] == 0
            && b[17 + n..] == RecordsBytes(Body(e))
  {
    hide Word, WordBytes, RecordsBytes;
    var n := |e.name|;
    BytesRoundTrip(n + 1);
    var h, t := Tlv(TLV_ALGO_HDR, Total(e)), Tlv(TLV_ALGO_INFO, INFO_SIZE + n + 1);
    var i, r := InfoBytes(e, pad), RecordsBytes(Body(e));
    var b := h + t + i + r;
    assert b == EntryBytes(e, pad);
    assert b[8..8 + |i|] == i;
    assert i[4..8] == WordBytes(n + 1) && b[12..16] == i[4..8];
    assert i[8..8 + n] == e.name && b[16..16 + n] == i[8..8 + n];
  }

  // ---- the length in the header ----

  /** Sizes of algorithms that have no blob. */
  function Missing(g: seq<Region>): nat {
    if g == [] then 0
    else Missing(g[..|g| - 1])
         + (if g[|g| - 1].algo.Some? && g[|g| - 1].algo.value.blob.None? then g[|g| - 1].algo.value.algoSize else 0)
  }

  lemma {:induction false} RecordsAppend(a: seq<Record>, b: seq<Record>)
    ensures RecordsBytes(a + b) == RecordsBytes(a) + RecordsBytes(b)
  {
    if a == [] {
      assert a + b == b;
    } else {
      assert (a + b)[1..] == a[1..] + b;
      RecordsAppend(a[1..], b);
    }
  }

  lemma OneRecord(r: Record)
    ensures RecordsBytes([r]) == RecordBytes(r)
  {
    assert [r][1..] == [];
  }

  lemma {:induction false} SectorsLength(s: seq<FlashIface.SectorInfo>)
    ensures |RecordsBytes(Sectors(s))| == (TLV_SIZE + SECTOR_SIZE) * |s|
  {
    if s != [] {
      var n := |s| - 1;
      assert Sectors(s) == Sectors(s[..n]) + [SectorRecord(s[n])];
      RecordsAppend(Sectors(s[..n]), [SectorRecord(s[n])]);
      OneRecord(SectorRecord(s[n]));
      SectorsLength(s[..n]);
    }
  }

  lemma {:induction false} RegionsLength(g: seq<Region>)
    requires forall i :: 0 <= i < |g| ==> Sized(g[i])
    ensures |RecordsBytes(Flashes(g))| + Missing(g) == RegionsTotal(g)
    ensures |RecordsBytes(Rams(g))| + Missing(g) == RegionsTotal(g)
  {
    if g != [] {
      var n := |g| - 1;
      assert Flashes(g) == Flashes(g[..n]) + [FlashRecord(g[n])];
      assert Rams(g) == Rams(g[..n]) + [RamRecord(g[n])];
      RecordsAppend(Flashes(g[..n]), [FlashRecord(g[n])]);
      RecordsAppend(Rams(g[..n]), [RamRecord(g[n])]);
      OneRecord(FlashRecord(g[n]));
      OneRecord(RamRecord(g[n]));
      RegionsLength(g[..n]);
    }
  }

  predicate SizedEntry(e: Entry) {
    && (forall i :: 0 <= i < |e.flash| ==> Sized(e.flash[i]))
    && (forall i :: 0 <= i < |e.ram| ==> Sized(e.ram[i]))
  }

  predicate ValidEntry(e: Entry) {
    && CString(e.name) && Total(e) < 0x1_0000
    && (forall i :: 0 <= i < |e.flash| ==> Complete(e.flash[i]))
    && (forall i :: 0 <= i < |e.ram| ==> Complete(e.ram[i]))
  }

  lemma EntryLength(e: Entry, pad: seq<byte>)
    requires SizedEntry(e) && |pad| == 3
    ensures |EntryBytes(e, pad)| + Missing(e.flash) + Missing(e.ram) == Total(e)
  {
    RecordsAppend(Sectors(e.sectors) + Flashes(e.flash), Rams(e.ram));
    RecordsAppend(Sectors(e.sectors), Flashes(e.flash));
    SectorsLength(e.sectors);
    RegionsLength(e.flash);
    RegionsLength(e.ram);
  }

  lemma TruncatedSum(b: nat, m: nat)
    ensures (b + m) % 0x1_0000 == b <==> b < 0x1_0000 && m % 0x1_0000 == 0
  {
    var k := 0x1_0000;
    var p, q := (b + m) / k, m / k;
    assert b + m == k * p + (b + m) % k && m == k * q + m % k;
    if b < k && m % k == 0 {
      assert b + m - b == k * q;
      assert (b + m) % k == b;
    }
    if (b + m) % k == b {
      assert m == k * p;
      assert m % k == 0;
    }
  }

  lemma HeaderLength(e: Entry, pad: seq<byte>)
    ensures |EntryBytes(e, pad)| >= 4 && Half(EntryBytes(e, pad)[2..4]) == Total(e) % 0x1_0000
  {
    HalfRoundTrip(Total(e));
    var t := Tlv(TLV_ALGO_HDR, Total(e));
    var u := EntryBytes(e, pad)[4..];
    assert EntryBytes(e, pad) == t + u;
    assert EntryBytes(e, pad)[2..4] == t[2..4] == HalfBytes(Total(e));
  }

  /** The length stored in the header is the number of bytes written for the entry exactly when these fit
      16 bits and the sizes of algorithms without a blob, which are counted but not written, cancel out. */
  lemma HeaderExact(e: Entry, pad: seq<byte>)
    requires SizedEntry(e) && |pad| == 3
    ensures |EntryBytes(e, pad)| >= 4
    ensures Half(EntryBytes(e, pad)[2..4]) == |EntryBytes(e, pad)|
            <==> |EntryBytes(e, pad)| < 0x1_0000 && (Missing(e.flash) + Missing(e.ram)) % 0x1_0000 == 0
  {
    hide EntryBytes, Total, Half;
    EntryLength(e, pad);
    HeaderLength(e, pad);
    TruncatedSum(|EntryBytes(e, pad)|, Missing(e.flash) + Missing(e.ram));
  }

  lemma {:induction false} NothingMissing(g: seq<Region>)
    requires forall i :: 0 <= i < |g| ==> Complete(g[i])
    ensures Missing(g) == 0
  {
    if g != [] { NothingMissing(g[..|g| - 1]); }
  }

  // ---- the writer ----

  lemma HalfTruncates(x: nat)
    ensures HalfBytes(x % 0x1_0000) == HalfBytes(x)
  {
    var y := x % 0x1_0000;
    assert x == 0x100 * (0x100 * (x / 0x1_0000)) + y;
    assert x / 0x100 == 0x100 * (x / 0x1_0000) + y / 0x100;
  }

  lemma TruncatedAdd(x: nat, y: nat)
    ensures (x % 0x1_0000 + y) % 0x1_0000 == (x + y) % 0x1_0000
  {
    var z := x % 0x1_0000 + y;
    assert x + y == 0x1_0000 * (x / 0x1_0000) + z;
  }

  datatype Item = Item(entry: Entry, pad: seq<byte>)

  predicate ValidItem(i: Item) {
    ValidEntry(i.entry) && |i.pad| == 3
  }

  function ItemBytes(i: Item): seq<byte> {
    EntryBytes(i.entry, i.pad)
  }

  function ArchiveBytes(items: seq<Item>): seq<byte> {
    if items == [] then [] else ItemBytes(items[0]) + ArchiveBytes(items[1..])
  }

  class Writer {
    var file: seq<byte>

    constructor ()
      ensures file == []
    {
      file := [];
    }

    /** Adds up what regions take, in 16 bits. */
    method AddRegions(total: nat, g: seq<Region>) returns (sum: nat)
      requires total < 0x1_0000
      ensures sum == (total + RegionsTotal(g)) % 0x1_0000
    {
      sum := total;
      for i := 0 to |g|
        invariant sum == (total + RegionsTotal(g[..i])) % 0x1_0000
      {
        assert g[..i + 1][..i] == g[..i];
        ghost var x := total + RegionsTotal(g[..i]);
        TruncatedAdd(x, TLV_SIZE);
        sum := (sum + TLV_SIZE) % 0x1_0000;
        TruncatedAdd(x + TLV_SIZE, REGION_SIZE);
        sum := (sum + REGION_SIZE) % 0x1_0000;
        if g[i].algo.Some? {
          TruncatedAdd(x + TLV_SIZE + REGION_SIZE, g[i].algo.value.algoSize);
          sum := (sum + g[i].algo.value.algoSize) % 0x1_0000;
        }
      }
      assert g[..|g|] == g;
    }

    method AddSectors(total: nat, n: nat) returns (sum: nat)
      requires total < 0x1_0000
      ensures sum == (total + (TLV_SIZE + SECTOR_SIZE) * n) % 0x1_0000
    {
      sum := total;
      for i := 0 to n
        invariant sum == (total + (TLV_SIZE + SECTOR_SIZE) * i) % 0x1_0000
      {
        TruncatedAdd(total + (TLV_SIZE + SECTOR_SIZE) * i, TLV_SIZE + SECTOR_SIZE);
        sum := (sum + TLV_SIZE + SECTOR_SIZE) % 0x1_0000;
      }
    }

    method AlgorithmInfoWrite(e: Entry, pad: seq<byte>)
      modifies this
      ensures file == old(file)
                      + (Tlv(TLV_ALGO_HDR, Total(e)) + Tlv(TLV_ALGO_INFO, INFO_SIZE + |e.name| + 1) + InfoBytes(e, pad))
    {
      hide HalfBytes, RegionsTotal;
      var start := 2 * TLV_SIZE + INFO_SIZE + |e.name| + 1;
      var total := AddSectors(start % 0x1_0000, |e.sectors|);
      TruncatedAdd(start, (TLV_SIZE + SECTOR_SIZE) * |e.sectors|);
      ghost var x := start + (TLV_SIZE + SECTOR_SIZE) * |e.sectors|;
      total := AddRegions(total, e.flash);
      TruncatedAdd(x, RegionsTotal(e.flash));
      total := AddRegions(total, e.ram);
      TruncatedAdd(x + RegionsTotal(e.flash), RegionsTotal(e.ram));
      HalfTruncates(Total(e));
      file := file + Tlv(TLV_ALGO_HDR, total);
      file := file + Tlv(TLV_ALGO_INFO, INFO_SIZE + |e.name| + 1);
      file := file + InfoBytes(e, pad);
    }

    method SectorInfoWrite(s: FlashIface.SectorInfo)
      modifies this
      ensures file == old(file) + RecordBytes(SectorRecord(s))
    {
      file := file + Tlv(TLV_SECTOR_INFO, SECTOR_SIZE);
      file := file + WordsBytes([s.start, s.size]);
    }

    method RegionInfoWrite(r: Region, magic: nat)
      requires Sized(r)
      modifies this
      ensures file == old(file) + (Tlv(magic, REGION_SIZE + |BlobOf(r)|) + WordsBytes(DiskWords(r)) + BlobOf(r))
    {
      hide HalfBytes;
      var total := REGION_SIZE;
      if r.algo.Some? && r.algo.value.blob.Some? { total := (total + r.algo.value.algoSize) % 0x1_0000; }
      HalfTruncates(REGION_SIZE + |BlobOf(r)|);
      file := file + Tlv(magic, total);
      file := file + WordsBytes(DiskWords(r));
      if r.algo.Some? && r.algo.value.blob.Some? { file := file + r.algo.value.blob.value; }
    }

    method AppendSectors(s: seq<FlashIface.SectorInfo>)
      modifies this
      ensures file == old(file) + RecordsBytes(Sectors(s))
    {
      hide RecordBytes;
      assert Sectors(s)[..0] == [];
      for i := 0 to |s|
        invariant file == old(file) + RecordsBytes(Sectors(s)[..i])
      {
        SectorInfoWrite(s[i]);
        NextWritten(Sectors(s), i);
      }
      assert Sectors(s)[..|s|] == Sectors(s);
    }

    method AppendRegions(g: seq<Region>, flash: bool)
      requires forall i :: 0 <= i < |g| ==> Sized(g[i])
      modifies this
      ensures file == old(file) + RecordsBytes(if flash then Flashes(g) else Rams(g))
    {
      hide RecordBytes, Tlv, Sized;
      ghost var rs := if flash then Flashes(g) else Rams(g);
      assert rs[..0] == [];
      for i := 0 to |g|
        invariant file == old(file) + RecordsBytes(rs[..i])
      {
        RegionInfoWrite(g[i], if flash then TLV_FLASH_REGION else TLV_RAM_REGION);
        RegionRecord(g[i]);
        NextWritten(rs, i);
      }
      assert rs[..|g|] == rs;
    }

    /** Appends one entry. */
    method Append(e: Entry, pad: seq<byte>)
      requires SizedEntry(e)
      modifies this
      ensures file == old(file) + EntryBytes(e, pad)
    {
      hide RecordsBytes, Tlv, InfoBytes;
      RecordsAppend(Sectors(e.sectors) + Flashes(e.flash), Rams(e.ram));
      RecordsAppend(Sectors(e.sectors), Flashes(e.flash));
      AlgorithmInfoWrite(e, pad);
      AppendSectors(e.sectors);
      AppendRegions(e.flash, true);
      AppendRegions(e.ram, false);
    }

    /** Writes an archive. */
    method Merge(items: seq<Item>)
      requires forall i :: 0 <= i < |items| ==> SizedEntry(items[i].entry)
      modifies this
      ensures file == old(file) + ArchiveBytes(items)
    {
      hide EntryBytes;
      assert items[..0] == [];
      for i := 0 to |items|
        invariant file == old(file) + ArchiveBytes(items[..i])
      {
        Append(items[i].entry, items[i].pad);
        assert items[..i + 1] == items[..i] + [items[i]];
        ArchiveAppend(items[..i], [items[i]]);
        assert [items[i]][1..] == [];
      }
      assert items[..|items|] == items;
    }
  }

  lemma RegionRecord(r: Region)
    ensures RecordBytes(FlashRecord(r)) ==
            Tlv(TLV_FLASH_REGION, REGION_SIZE + |BlobOf(r)|) + WordsBytes(DiskWords(r)) + BlobOf(r)
    ensures RecordBytes(RamRecord(r)) ==
            Tlv(TLV_RAM_REGION, REGION_SIZE + |BlobOf(r)|) + WordsBytes(DiskWords(r)) + BlobOf(r)
  {
  }

  lemma NextWritten(rs: seq<Record>, i: nat)
    requires i < |rs|
    ensures RecordsBytes(rs[..i + 1]) == RecordsBytes(rs[..i]) + RecordBytes(rs[i])
  {
    assert rs[..i + 1] == rs[..i] + [rs[i]];
    RecordsAppend(rs[..i], [rs[i]]);
    OneRecord(rs[i]);
  }

  lemma {:induction false} ArchiveAppend(a: seq<Item>, b: seq<Item>)
    ensures ArchiveBytes(a + b) == ArchiveBytes(a) + ArchiveBytes(b)
  {
    if a == [] {
      assert a + b == b;
    } else {
      assert (a + b)[1..] == a[1..] + b;
      ArchiveAppend(a[1..], b);
    }
  }

  // ---- the look-up ----

  /** `b` lies at position `pos` of `data`. */
  predicate At(data: seq<byte>, pos: nat, b: seq<byte>) {
    pos + |b| <= |data| && data[pos..pos + |b|] == b
  }

  lemma AtSplit(data: seq<byte>, pos: nat, a: seq<byte>, b: seq<byte>)
    ensures At(data, pos, a + b) <==> At(data, pos, a) && At(data, pos + |a|, b)
  {
    if pos + |a| + |b| <= |data| {
      var w := data[pos..pos + |a| + |b|];
      assert w == data[pos..pos + |a|] + data[pos + |a|..pos + |a| + |b|];
      assert w[..|a|] == data[pos..pos + |a|] && w[|a|..] == data[pos + |a|..pos + |a| + |b|];
      assert (a + b)[..|a|] == a && (a + b)[|a|..] == b;
    }
  }

  /** A region as it is read back: one without an algorithm gets an all-zero one. */
  function Stored(r: Region): Region {
    var p := if r.algo.Some? then r.algo.value else NO_PROGRAM;
    r.(algo := Some(p.(blob := if p.algoSize == 0 then None else p.blob)))
  }

  function StoredAll(g: seq<Region>): (s: seq<Region>)
    ensures |s| == |g| && forall i :: 0 <= i < |g| ==> s[i] == Stored(g[i])
  {
    seq(|g|, i requires 0 <= i < |g| => Stored(g[i]))
  }

  function StoredEntry(e: Entry): Entry {
    e.(flash := StoredAll(e.flash), ram := StoredAll(e.ram))
  }

  /** The configuration of the last entry of that name. */
  function LastMatch(items: seq<Item>, name: seq<byte>): Option<Entry> {
    if items == [] then None
    else if items[|items| - 1].entry.name == name then Some(StoredEntry(items[|items| - 1].entry))
    else LastMatch(items[..|items| - 1], name)
  }

  /** It is the last one: of two entries of the same name the later one counts. */
  lemma {:induction false} LastMatchIs(items: seq<Item>, name: seq<byte>, i: nat)
    requires i < |items| && items[i].entry.name == name
    requires forall j :: i < j < |items| ==> items[j].entry.name != name
    ensures LastMatch(items, name) == Some(StoredEntry(items[i].entry))
    decreases |items|
  {
    if i < |items| - 1 { LastMatchIs(items[..|items| - 1], name, i); }
  }

  lemma {:induction false} NoMatchIff(items: seq<Item>, name: seq<byte>)
    ensures LastMatch(items, name).None? <==> forall i :: 0 <= i < |items| ==> items[i].entry.name != name
    decreases |items|
  {
    if items != [] {
      NoMatchIff(items[..|items| - 1], name);
      assert forall i :: 0 <= i < |items| - 1 ==> items[..|items| - 1][i] == items[i];
    }
  }

  method ReadWords(data: seq<byte>, pos: nat, n: nat, ghost ws: seq<u32>) returns (r: seq<u32>)
    requires |ws| == n && At(data, pos, WordsBytes(ws))
    ensures r == ws
  {
    hide Word, WordBytes;
    r := [];
    assert ws[0..] == ws;
    for i := 0 to n
      invariant r == ws[..i] && At(data, pos + 4 * i, WordsBytes(ws[i..]))
    {
      assert ws[i..][1..] == ws[i + 1..];
      AtSplit(data, pos + 4 * i, WordBytes(ws[i]), WordsBytes(ws[i + 1..]));
      BytesRoundTrip(ws[i]);
      r := r + [Word(data[pos + 4 * i..pos + 4 * i + 4])];
    }
  }

  method ReadTlv(data: seq<byte>, pos: nat, ghost magic0: nat, ghost total0: nat) returns (magic: nat, total: nat)
    requires At(data, pos, Tlv(magic0, total0)) && magic0 < 0x1_0000
    ensures magic == magic0 && total == total0 % 0x1_0000
  {
    hide HalfBytes, Half;
    AtSplit(data, pos, HalfBytes(magic0), HalfBytes(total0));
    HalfRoundTrip(magic0);
    HalfRoundTrip(total0);
    magic, total := Half(data[pos..pos + 2]), Half(data[pos + 2..pos + 4]);
  }

  method ReadRegion(data: seq<byte>, pos: nat, ghost r: Region) returns (region: Region, next: nat)
    requires At(data, pos, WordsBytes(DiskWords(r)) + BlobOf(r)) && Complete(r)
    ensures region == Stored(r) && next == pos + REGION_SIZE + |BlobOf(r)|
  {
    hide WordsBytes;
    AtSplit(data, pos, WordsBytes(DiskWords(r)), BlobOf(r));
    var w := ReadWords(data, pos, 16, DiskWords(r));
    next := pos + REGION_SIZE;
    var blob := None;
    if w[15] != 0 {
      blob := Some(data[next..next + w[15]]);
      next := next + w[15];
    }
    region := Region(w[0], w[1], w[2],
                     Some(Program(w[3], w[4], w[5], w[6], w[7], w[8], w[9], w[10], w[11], w[12], w[13], w[14], w[15],
                                  blob)));
  }

  // ---- the records of an entry, read one by one ----

  function SectorsIn(rs: seq<Record>): seq<FlashIface.SectorInfo> {
    if rs == [] then []
    else SectorsIn(rs[..|rs| - 1]) + (if rs[|rs| - 1].SectorRecord? then [rs[|rs| - 1].info] else [])
  }

  function FlashIn(rs: seq<Record>): seq<Region> {
    if rs == [] then []
    else FlashIn(rs[..|rs| - 1]) + (if rs[|rs| - 1].FlashRecord? then [Stored(rs[|rs| - 1].region)] else [])
  }

  function RamIn(rs: seq<Record>): seq<Region> {
    if rs == [] then []
    else RamIn(rs[..|rs| - 1]) + (if rs[|rs| - 1].RamRecord? then [Stored(rs[|rs| - 1].region)] else [])
  }

  lemma {:induction false} AfterSectors(s: seq<FlashIface.SectorInfo>)
    ensures SectorsIn(Sectors(s)) == s && FlashIn(Sectors(s)) == [] && RamIn(Sectors(s)) == []
  {
    if s != [] {
      var n := |s| - 1;
      assert Sectors(s)[..n] == Sectors(s[..n]);
      AfterSectors(s[..n]);
    }
  }

  lemma {:induction false} AfterFlashes(rs: seq<Record>, g: seq<Region>)
    ensures SectorsIn(rs + Flashes(g)) == SectorsIn(rs)
    ensures FlashIn(rs + Flashes(g)) == FlashIn(rs) + StoredAll(g)
    ensures RamIn(rs + Flashes(g)) == RamIn(rs)
    decreases |g|
  {
    if g == [] {
      assert rs + Flashes(g) == rs;
    } else {
      var n := |g| - 1;
      var all := rs + Flashes(g);
      assert all[..|all| - 1] == rs + Flashes(g[..n]);
      assert StoredAll(g) == StoredAll(g[..n]) + [Stored(g[n])];
      AfterFlashes(rs, g[..n]);
    }
  }

  lemma {:induction false} AfterRams(rs: seq<Record>, g: seq<Region>)
    ensures SectorsIn(rs + Rams(g)) == SectorsIn(rs)
    ensures FlashIn(rs + Rams(g)) == FlashIn(rs)
    ensures RamIn(rs + Rams(g)) == RamIn(rs) + StoredAll(g)
    decreases |g|
  {
    if g == [] {
      assert rs + Rams(g) == rs;
    } else {
      var n := |g| - 1;
      var all := rs + Rams(g);
      assert all[..|all| - 1] == rs + Rams(g[..n]);
      assert StoredAll(g) == StoredAll(g[..n]) + [Stored(g[n])];
      AfterRams(rs, g[..n]);
    }
  }

  /** The records of an entry give back its parts. */
  lemma BodyParts(e: Entry)
    ensures SectorsIn(Body(e)) == e.sectors
    ensures FlashIn(Body(e)) == StoredAll(e.flash)
    ensures RamIn(Body(e)) == StoredAll(e.ram)
  {
    AfterSectors(e.sectors);
    AfterFlashes(Sectors(e.sectors), e.flash);
    AfterRams(Sectors(e.sectors) + Flashes(e.flash), e.ram);
  }

  predicate CompleteRecord(r: Record) {
    !r.SectorRecord? ==> Complete(r.region)
  }

  function Magic(r: Record): (m: nat)
    ensures m < 0x1_0000 && m != TLV_ALGO_HDR
  {
    match r
    case SectorRecord(_) => TLV_SECTOR_INFO
    case FlashRecord(_) => TLV_FLASH_REGION
    case RamRecord(_) => TLV_RAM_REGION
  }

  function Payload(r: Record): seq<byte> {
    match r
    case SectorRecord(s) => WordsBytes([s.start, s.size])
    case FlashRecord(g) => WordsBytes(DiskWords(g)) + BlobOf(g)
    case RamRecord(g) => WordsBytes(DiskWords(g)) + BlobOf(g)
  }

  lemma RecordShape(r: Record)
    ensures RecordBytes(r) == Tlv(Magic(r), |Payload(r)|) + Payload(r)
  {
    if !r.SectorRecord? {
      var t, w, b := Tlv(Magic(r), |Payload(r)|), WordsBytes(DiskWords(r.region)), BlobOf(r.region);
      assert t + w + b == t + (w + b);
    }
  }

  /** The parts collected so far. */
  datatype Parts = Parts(sectors: seq<FlashIface.SectorInfo>, flash: seq<Region>, ram: seq<Region>)

  function PartsIn(rs: seq<Record>): Parts {
    Parts(SectorsIn(rs), FlashIn(rs), RamIn(rs))
  }

  lemma PartsMore(rs: seq<Record>, k: nat)
    requires k < |rs|
    ensures var p := PartsIn(rs[..k]);
            PartsIn(rs[..k + 1]) ==
            match rs[k]
            case SectorRecord(s) => p.(sectors := p.sectors + [s])
            case FlashRecord(g) => p.(flash := p.flash + [Stored(g)])
            case RamRecord(g) => p.(ram := p.ram + [Stored(g)])
  {
    assert rs[..k + 1][..k] == rs[..k];
  }

  method ReadRecord(data: seq<byte>, pos: nat, magic: nat, p: Parts, ghost r: Record) returns (q: Parts, next: nat)
    requires At(data, pos, Payload(r)) && CompleteRecord(r) && magic == Magic(r)
    ensures next == pos + |Payload(r)|
    ensures q == match r
                 case SectorRecord(s) => p.(sectors := p.sectors + [s])
                 case FlashRecord(g) => p.(flash := p.flash + [Stored(g)])
                 case RamRecord(g) => p.(ram := p.ram + [Stored(g)])
  {
    hide WordsBytes;
    q, next := p, pos;
    if magic == TLV_SECTOR_INFO {
      var w := ReadWords(data, pos, 2, [r.info.start, r.info.size]);
      next := pos + SECTOR_SIZE;
      q := p.(sectors := p.sectors + [FlashIface.SectorInfo(w[0], w[1])]);
    } else if magic == TLV_FLASH_REGION || magic == TLV_RAM_REGION {
      var region;
      region, next := ReadRegion(data, pos, r.region);
      if magic == TLV_FLASH_REGION {
        q := p.(flash := p.flash + [region]);
      } else {
        q := p.(ram := p.ram + [region]);
      }
    }
  }

  /** What lies behind the records: the header of the next entry, or, behind the last one, the end. */
  predicate Followed(data: seq<byte>, pos: nat, last: bool, total: nat) {
    if last then pos == |data| else At(data, pos, Tlv(TLV_ALGO_HDR, total))
  }

  /** Reads records until the header of the next entry. Behind the last entry there is none, and the source
      reads on past the data: `inside` is false then. */
  method ReadRecords(data: seq<byte>, start: nat, ghost rs: seq<Record>, ghost last: bool, ghost total: nat)
    returns (inside: bool, p: Parts)
    requires At(data, start, RecordsBytes(rs)) && Followed(data, start + |RecordsBytes(rs)|, last, total)
    requires forall i :: 0 <= i < |rs| ==> CompleteRecord(rs[i])
    ensures inside == !last
    ensures inside ==> p == PartsIn(rs)
  {
    hide Tlv, RecordBytes, Payload, At, Complete, RecordsBytes;
    p := Parts([], [], []);
    var pos: nat := start;
    ghost var k := 0;
    assert rs[0..] == rs && rs[..0] == [];
    while true
      invariant k <= |rs| && At(data, pos, RecordsBytes(rs[k..]))
      invariant Followed(data, pos + |RecordsBytes(rs[k..])|, last, total)
      invariant p == PartsIn(rs[..k])
      decreases |rs| - k
    {
      ghost var magic0, total0 := NextTag(data, pos, rs, k, last, total);
      if |data| < pos + TLV_SIZE { return false, p; }
      var magic, size := ReadTlv(data, pos, magic0, total0);
      pos := pos + TLV_SIZE;
      if magic == TLV_ALGO_HDR { break; }
      PartsMore(rs, k);
      p, pos := ReadRecord(data, pos, magic, p, rs[k]);
      k := k + 1;
    }
    assert rs[..k] == rs;
    inside := true;
  }

  /** The tag at the next position: that of record `k`, or the next entry's header, if there is one. */
  lemma NextTag(data: seq<byte>, pos: nat, rs: seq<Record>, k: nat, last: bool, total: nat)
    returns (magic: nat, size: nat)
    requires k <= |rs| && At(data, pos, RecordsBytes(rs[k..]))
    requires Followed(data, pos + |RecordsBytes(rs[k..])|, last, total)
    ensures |data| < pos + TLV_SIZE <==> k == |rs| && last
    ensures !(k == |rs| && last) ==>
              && magic < 0x1_0000 && At(data, pos, Tlv(magic, size))
              && (k == |rs| <==> magic == TLV_ALGO_HDR)
    ensures k < |rs| ==>
              && magic == Magic(rs[k]) && At(data, pos + TLV_SIZE, Payload(rs[k]))
              && At(data, pos + TLV_SIZE + |Payload(rs[k])|, RecordsBytes(rs[k + 1..]))
              && |RecordsBytes(rs[k..])| == TLV_SIZE + |Payload(rs[k])| + |RecordsBytes(rs[k + 1..])|
  {
    hide Tlv, RecordBytes, Payload;
    magic, size := TLV_ALGO_HDR, total;
    if k < |rs| {
      magic, size := Magic(rs[k]), |Payload(rs[k])|;
      RecordShape(rs[k]);
      var t, y, rest := Tlv(magic, size), Payload(rs[k]), RecordsBytes(rs[k + 1..]);
      assert rs[k..][1..] == rs[k + 1..];
      assert RecordsBytes(rs[k..]) == t + (y + rest);
      AtSplit(data, pos, t, y + rest);
      AtSplit(data, pos + TLV_SIZE, y, rest);
    }
  }

  // ---- finding an entry ----

  /** A C string: the bytes before the first NUL. */
  function UpToNul(b: seq<byte>): seq<byte> {
    if b == [] || b[0] == 0 then [] else [b[0]] + UpToNul(b[1..])
  }

  lemma {:induction false} NameEnds(name: seq<byte>)
    requires CString(name)
    ensures UpToNul(name + [0]) == name
  {
    if name != [] {
      assert (name + [0])[1..] == name[1..] + [0];
      NameEnds(name[1..]);
    }
  }

  /** The parts of an entry, where they lie. */
  lemma EntryAt(data: seq<byte>, pos: nat, e: Entry, pad: seq<byte>)
    requires At(data, pos, EntryBytes(e, pad)) && |pad| == 3 && Total(e) < 0x1_0000
    ensures At(data, pos, Tlv(TLV_ALGO_HDR, Total(e)))
    ensures At(data, pos + 4, Tlv(TLV_ALGO_INFO, INFO_SIZE + |e.name| + 1))
    ensures pos + 16 <= |data| && data[pos + 8] == e.eraseReset && Word(data[pos + 12..pos + 16]) == |e.name| + 1
    ensures At(data, pos + 16, e.name + [0])
    ensures At(data, pos + 16 + |e.name| + 1, RecordsBytes(Body(e)))
    ensures |EntryBytes(e, pad)| == 16 + |e.name| + 1 + |RecordsBytes(Body(e))|
  {
    hide Tlv, RecordsBytes, WordBytes, Word, Body, Total;
    var t, u := Tlv(TLV_ALGO_HDR, Total(e)), Tlv(TLV_ALGO_INFO, INFO_SIZE + |e.name| + 1);
    var i, b := InfoBytes(e, pad), RecordsBytes(Body(e));
    assert |t + u + i| == 16 + |e.name| + 1;
    NameFits(e);
    AtSplit(data, pos, t + u + i, b);
    AtSplit(data, pos, t + u, i);
    AtSplit(data, pos, t, u);
    InfoAt(data, pos + 8, e, pad);
  }

  lemma NameFits(e: Entry)
    ensures |e.name| + 1 < Total(e)
  {
  }

  lemma InfoAt(data: seq<byte>, pos: nat, e: Entry, pad: seq<byte>)
    requires At(data, pos, InfoBytes(e, pad)) && |pad| == 3 && |e.name| + 1 < 0x1_0000_0000
    ensures pos + 8 <= |data| && data[pos] == e.eraseReset && Word(data[pos + 4..pos + 8]) == |e.name| + 1
    ensures At(data, pos + 8, e.name + [0])
  {
    hide Word, WordBytes;
    var n, w := e.name + [0], WordBytes(Wrap(|e.name| + 1));
    assert InfoBytes(e, pad) == [e.eraseReset] + (pad + (w + n));
    AtSplit(data, pos, [e.eraseReset], pad + (w + n));
    AtSplit(data, pos + 1, pad, w + n);
    AtSplit(data, pos + 4, w, n);
    BytesRoundTrip(Wrap(|e.name| + 1));
    assert data[pos..pos + 1][0] == data[pos];
  }

  lemma BodyComplete(e: Entry)
    requires ValidEntry(e)
    ensures forall i :: 0 <= i < |Body(e)| ==> CompleteRecord(Body(e)[i])
  {
  }

  lemma HeaderLeads(e: Entry, pad: seq<byte>)
    requires ValidEntry(e) && |pad| == 3
    ensures |EntryBytes(e, pad)| == Total(e)
  {
    EntryLength(e, pad);
    NothingMissing(e.flash);
    NothingMissing(e.ram);
  }

  /** Looks at one entry: is it the one, and how far is it to the next? */
  method MatchEntry(data: seq<byte>, pos: nat, name: seq<byte>,
                    ghost e: Entry, ghost pad: seq<byte>, ghost last: bool, ghost next: nat)
    returns (inside: bool, found: Option<Entry>, total: nat)
    requires ValidEntry(e) && |pad| == 3 && At(data, pos, EntryBytes(e, pad))
    requires Followed(data, pos + |EntryBytes(e, pad)|, last, next)
    ensures total == |EntryBytes(e, pad)|
    ensures inside <==> !(last && e.name == name)
    ensures inside ==> found == if e.name == name then Some(StoredEntry(e)) else None
  {
    hide Tlv, EntryBytes, RecordsBytes, Word, Total, Body, PartsIn;
    EntryAt(data, pos, e, pad);
    HeaderLeads(e, pad);
    NameEnds(e.name);
    found, inside := None, true;
    var magic, size;
    magic, total := ReadTlv(data, pos, TLV_ALGO_HDR, Total(e));
    if magic == TLV_ALGO_HDR {
      magic, size := ReadTlv(data, pos + 4, TLV_ALGO_INFO, INFO_SIZE + |e.name| + 1);
      if magic == TLV_ALGO_INFO {
        var n := Word(data[pos + 12..pos + 16]);
        if name == UpToNul(data[pos + 16..pos + 16 + n]) {
          var p;
          inside, p := ReadParts(data, pos + 16 + n, e, last, next);
          found := Some(Entry(data[pos + 8], name, p.sectors, p.flash, p.ram));
        }
      }
    }
  }

  method ReadParts(data: seq<byte>, pos: nat, ghost e: Entry, ghost last: bool, ghost next: nat)
    returns (inside: bool, p: Parts)
    requires ValidEntry(e) && At(data, pos, RecordsBytes(Body(e)))
    requires Followed(data, pos + |RecordsBytes(Body(e))|, last, next)
    ensures inside == !last
    ensures inside ==> p == Parts(e.sectors, StoredAll(e.flash), StoredAll(e.ram))
  {
    hide Body, RecordsBytes, At, Tlv, Total;
    BodyComplete(e);
    BodyParts(e);
    inside, p := ReadRecords(data, pos, Body(e), last, next);
  }

  /** Where entry `i` of an archive lies, and what follows it. */
  lemma ItemAt(items: seq<Item>, i: nat)
    requires i < |items| && forall j :: 0 <= j < |items| ==> ValidItem(items[j])
    ensures At(ArchiveBytes(items), |ArchiveBytes(items[..i])|, ItemBytes(items[i]))
    ensures |ArchiveBytes(items[..i])| < |ArchiveBytes(items[..i + 1])| <= |ArchiveBytes(items)|
    ensures |ArchiveBytes(items[..i + 1])| == |ArchiveBytes(items[..i])| + |ItemBytes(items[i])|
    ensures Followed(ArchiveBytes(items), |ArchiveBytes(items[..i + 1])|, i + 1 == |items|,
                     if i + 1 < |items| then Total(items[i + 1].entry) else 0)
  {
    hide EntryBytes;
    Upto(items, i);
    EntryAt(ArchiveBytes(items), |ArchiveBytes(items[..i])|, items[i].entry, items[i].pad);
    if i + 1 < |items| {
      Upto(items, i + 1);
      EntryAt(ArchiveBytes(items), |ArchiveBytes(items[..i + 1])|, items[i + 1].entry, items[i + 1].pad);
    } else {
      assert items[..i + 1] == items;
    }
  }

  lemma Upto(items: seq<Item>, i: nat)
    requires i < |items|
    ensures At(ArchiveBytes(items), |ArchiveBytes(items[..i])|, ItemBytes(items[i]))
    ensures |ArchiveBytes(items[..i + 1])| == |ArchiveBytes(items[..i])| + |ItemBytes(items[i])|
    ensures |ArchiveBytes(items[..i + 1])| <= |ArchiveBytes(items)|
  {
    hide ItemBytes;
    var a, x, b := items[..i], [items[i]], items[i + 1..];
    assert items == a + x + b && items[..i + 1] == a + x;
    assert x[1..] == [] && ArchiveBytes(x) == ItemBytes(items[i]) + [];
    ArchiveAppend(a + x, b);
    ArchiveAppend(a, x);
  }

  /** Looks a device up in an archive. All reads stay inside the data if and only if the last entry is not the
      one asked for: its records have no header behind them to stop at. */
  method Find(data: seq<byte>, name: seq<byte>, ghost items: seq<Item>) returns (inside: bool, found: Option<Entry>)
    requires data == ArchiveBytes(items) && forall i :: 0 <= i < |items| ==> ValidItem(items[i])
    ensures inside <==> items == [] || items[|items| - 1].entry.name != name
    ensures inside ==> found == LastMatch(items, name)
  {
    hide EntryBytes, ArchiveBytes, At, Tlv, Total;
    found, inside := None, true;
    NonEmpty(items);
    if |data| == 0 { return; }
    var readPos, hdrPos := 0, 0;
    ghost var i := 0;
    assert items[..0] == [];
    StartsAtZero();
    assert items[..|items|] == items;
    while readPos < |data|
      invariant inside && i <= |items| && readPos == hdrPos == |ArchiveBytes(items[..i])|
      invariant found == LastMatch(items[..i], name)
      invariant i == |items| ==> items[|items| - 1].entry.name != name
      decreases |items| - i
    {
      if i < |items| { ItemAt(items, i); }
      var hit, total;
      inside, hit, total := MatchEntry(data, readPos, name, items[i].entry, items[i].pad, i + 1 == |items|,
                                       if i + 1 < |items| then Total(items[i + 1].entry) else 0);
      if !inside { return; }
      if hit.Some? { found := hit; }
      hdrPos := hdrPos + total;
      readPos := hdrPos;
      assert items[..i + 1][..i] == items[..i];
      i := i + 1;
    }
    if i < |items| { ItemAt(items, i); }
  }

  lemma StartsAtZero()
    ensures ArchiveBytes([]) == []
  {
  }

  lemma NonEmpty(items: seq<Item>)
    ensures items != [] ==> ArchiveBytes(items) != []
  {
    if items != [] { assert |ItemBytes(items[0])| > 0; }
  }

  predicate DistinctNames(items: seq<Item>) {
    forall i, j :: 0 <= i < j < |items| ==> items[i].entry.name != items[j].entry.name
  }

  /** With distinct names the look-up gives every entry but the last. */
  lemma {:induction false} MatchUnique(items: seq<Item>, k: nat)
    requires k < |items| && DistinctNames(items)
    ensures LastMatch(items, items[k].entry.name) == Some(StoredEntry(items[k].entry))
    decreases |items|
  {
    if k < |items| - 1 { MatchUnique(items[..|items| - 1], k); }
  }

  /** An entry is read back as it was exactly when every region has an algorithm, and every algorithm with
      a size of zero has no blob. */
  lemma StoredIsSame(e: Entry)
    ensures StoredEntry(e) == e <==> Faithful(e.flash) && Faithful(e.ram)
  {
    StoredSame(e.flash);
    StoredSame(e.ram);
  }

  predicate Faithful(g: seq<Region>) {
    forall i :: 0 <= i < |g| ==> g[i].algo.Some? && (g[i].algo.value.algoSize == 0 ==> g[i].algo.value.blob.None?)
  }

  lemma StoredSame(g: seq<Region>)
    ensures StoredAll(g) == g <==> Faithful(g)
  {
    if StoredAll(g) == g {
      forall i | 0 <= i < |g|
        ensures g[i].algo.Some? && (g[i].algo.value.algoSize == 0 ==> g[i].algo.value.blob.None?)
      {
        assert StoredAll(g)[i] == Stored(g[i]);
      }
    }
  }

  // ---- an entry as a configuration ----

  /** The algorithm the driver sees. Every region that is read back has one of its own. */
  function AlgoOf(id: nat, p: Program): FlashIface.Algo {
    FlashIface.Algo(id, p.verify != 0, p.stackPointer, p.programBuffer, p.programBufferSize, p.algoStart,
                    if p.blob.Some? then p.blob.value else [])
  }

  /** Bit 0 of the flags marks the default region. */
  function RegionOf(id: nat, r: Region): FlashIface.Region {
    FlashIface.Region(r.start, r.end, r.flags % 2 == 1, if r.algo.Some? then Some(AlgoOf(id, r.algo.value)) else None)
  }

  function ConfigOf(e: Entry): FlashIface.Config {
    FlashIface.Config(e.sectors, seq(|e.flash|, i requires 0 <= i < |e.flash| => RegionOf(i, e.flash[i])))
  }

  lemma StoredRegion(c: FlashIface.Chip, id: nat, r: Region)
    requires FlashIface.ValidChip(c) && Complete(r)
    ensures r.algo.Some? ==> RegionOf(id, Stored(r)) == RegionOf(id, r)
    ensures FlashIface.PlacedRegion(c, RegionOf(id, Stored(r)))
            <==> r.algo.Some? && FlashIface.PlacedRegion(c, RegionOf(id, r))
  {
  }

  /** A configuration that is looked up fits the chip if and only if the one that was written does, and every flash
      region of it has an algorithm: the all-zero one that is put in place of none is not placed in RAM. */
  lemma FoundDescribes(e: Entry, c: FlashIface.Chip)
    requires ValidEntry(e)
    ensures FlashIface.Describes(ConfigOf(StoredEntry(e)), c)
            <==> FlashIface.Describes(ConfigOf(e), c) && forall i :: 0 <= i < |e.flash| ==> e.flash[i].algo.Some?
  {
    if FlashIface.ValidChip(c) {
      var now, was := ConfigOf(StoredEntry(e)).regions, ConfigOf(e).regions;
      forall i | 0 <= i < |e.flash|
        ensures FlashIface.PlacedRegion(c, now[i]) <==> e.flash[i].algo.Some? && FlashIface.PlacedRegion(c, was[i])
      {
        StoredRegion(c, i, e.flash[i]);
      }
      AllPlaced(c, now);
      AllPlaced(c, was);
    }
  }

  lemma AllPlaced(c: FlashIface.Chip, g: seq<FlashIface.Region>)
    requires c.sectors != []
    ensures (forall r :: r in g ==> FlashIface.PlacedRegion(c, r))
            <==> forall i :: 0 <= i < |g| ==> FlashIface.PlacedRegion(c, g[i])
  {
    if forall i :: 0 <= i < |g| ==> FlashIface.PlacedRegion(c, g[i]) {
      forall r | r in g ensures FlashIface.PlacedRegion(c, r) {
        var i :| 0 <= i < |g| && g[i] == r;
      }
    }
  }
}
