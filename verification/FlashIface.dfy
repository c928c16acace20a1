/** The types shared by the flash layers, and the sector geometry of a chip. */
module FlashIface {
  import opened Words

  datatype Err =
    | NONE | FAILURE | INTERNAL | RESET | ALGO_DL | ALGO_MISSING | ALGO_DATA_SEQ
    | INIT | UNINIT | ERASE_SECTOR | WRITE | WRITE_VERIFY

  datatype Func = Nop | Erase | Program | Verify

  datatype FlashState = Closed | Open | Error

  datatype SectorInfo = SectorInfo(start: u32, size: u32)

  /** A flash algorithm. `id` is its identity: the source compares algorithms by address. */
  datatype Algo = Algo(
    id: nat,
    hasVerify: bool,        // its verify entry is not 0
    stackPointer: u32,
    programBuffer: u32,
    programBufferSize: u32,
    algoStart: u32,
    blob: seq<byte>)

  /** `isDefault` is the REIGION_DEFAULT bit of the source's flags word. */
  datatype Region = Region(start: u32, end: u32, isDefault: bool, algo: Option<Algo>)

  datatype Config = Config(sectors: seq<SectorInfo>, regions: seq<Region>)

  /** What the chip's flash looks like: its sector table, and where its last sector run ends. */
  datatype Chip = Chip(sectors: seq<SectorInfo>, limit: u32)

  // ---- sector geometry ----

  /** The size of the last entry that starts at or below `addr`; 0 below the table. */
  function SectorSize(table: seq<SectorInfo>, addr: u32): u32 {
    if table == [] then 0
    else if addr >= table[|table| - 1].start then table[|table| - 1].size
    else SectorSize(table[..|table| - 1], addr)
  }

  /** Where entry `k` of the chip's table stops. */
  function EntryEnd(c: Chip, k: nat): u32
    requires k < |c.sectors|
  {
    if k + 1 < |c.sectors| then c.sectors[k + 1].start else c.limit
  }

  /** A sorted table of positive sizes. */
  predicate Ordered(c: Chip) {
    && c.sectors != []
    && Sorted(c)
    && forall k :: 0 <= k < |c.sectors| ==> c.sectors[k].size > 0
  }

  predicate Sorted(c: Chip) {
    forall k {:trigger EntryEnd(c, k)} :: 0 <= k < |c.sectors| ==> c.sectors[k].start < EntryEnd(c, k)
  }

  /** The table and the end of the flash fit the sector sizes: see `GeometryIff`. */
  predicate ValidChip(c: Chip) {
    Ordered(c) && Aligned(c)
  }

  /** The first entry starts on a multiple of its size, and sectors of different sizes do not overlap. */
  predicate Aligned(c: Chip)
    requires Ordered(c)
  {
    && c.sectors[0].start % c.sectors[0].size == 0
    && forall k :: 0 <= k < |c.sectors| ==> FitsEnd(c, k)
  }

  /** Where the size changes behind entry `k`, both sizes divide the address; the last one divides the limit. */
  predicate FitsEnd(c: Chip, k: nat)
    requires Ordered(c) && k < |c.sectors|
  {
    var end, size := EntryEnd(c, k), c.sectors[k].size;
    if k + 1 == |c.sectors| then end % size == 0
    else size == c.sectors[k + 1].size || (end % size == 0 && end % c.sectors[k + 1].size == 0)
  }

  function Base(c: Chip): u32
    requires c.sectors != []
  {
    c.sectors[0].start
  }

  predicate InFlash(c: Chip, addr: int)
    requires c.sectors != []
  {
    Base(c) <= addr < c.limit
  }

  function SizeAt(c: Chip, addr: u32): u32 {
    SectorSize(c.sectors, addr)
  }

  /** The sector that holds `addr`, named by its first address. */
  function SectorOf(c: Chip, addr: u32): u32
    requires SizeAt(c, addr) > 0
  {
    RoundDown(addr, SizeAt(c, addr))
  }

  lemma {:induction false} EntriesSorted(c: Chip, i: nat, j: nat)
    requires Sorted(c) && i <= j < |c.sectors|
    ensures c.sectors[i].start <= c.sectors[j].start
    ensures i < j ==> EntryEnd(c, i) <= c.sectors[j].start
    decreases j - i
  {
    if i < j {
      assert c.sectors[i].start < EntryEnd(c, i);
      EntriesSorted(c, i + 1, j);
    }
  }

  /** The reverse scan stops at the entry whose span holds the address. */
  lemma {:induction false} ScanFinds(table: seq<SectorInfo>, addr: u32, k: nat)
    requires k < |table|
    requires table[k].start <= addr
    requires forall j :: k < j < |table| ==> addr < table[j].start
    ensures SectorSize(table, addr) == table[k].size
  {
    if k < |table| - 1 {
      ScanFinds(table[..|table| - 1], addr, k);
    }
  }

  lemma {:induction false} EntryHolding(c: Chip, addr: u32) returns (k: nat)
    requires c.sectors != [] && InFlash(c, addr)
    ensures k < |c.sectors| && c.sectors[k].start <= addr < EntryEnd(c, k)
  {
    k := |c.sectors| - 1;
    while addr < c.sectors[k].start
      invariant k < |c.sectors| && addr < EntryEnd(c, k)
      decreases k
    {
      k := k - 1;
    }
  }

  lemma EntrySize(c: Chip, addr: u32, k: nat)
    requires Sorted(c) && k < |c.sectors| && c.sectors[k].start <= addr < EntryEnd(c, k)
    ensures SizeAt(c, addr) == c.sectors[k].size
  {
    forall j | k < j < |c.sectors| ensures addr < c.sectors[j].start {
      EntriesSorted(c, k, j);
    }
    ScanFinds(c.sectors, addr, k);
  }

  lemma EntryBounds(c: Chip, k: nat)
    requires Ordered(c) && k < |c.sectors|
    ensures Base(c) <= c.sectors[k].start < EntryEnd(c, k) <= c.limit
  {
    EntriesSorted(c, 0, k);
    if k + 1 < |c.sectors| {
      EntriesSorted(c, k + 1, |c.sectors| - 1);
      assert c.sectors[|c.sectors| - 1].start < EntryEnd(c, |c.sectors| - 1);
    }
  }

  lemma BaseBelowLimit(c: Chip)
    requires Ordered(c)
    ensures Base(c) < c.limit
  {
    EntryBounds(c, 0);
  }

  /** Entries `i` to `j` all have the size `z`. */
  predicate Run(c: Chip, i: nat, j: nat, z: nat) {
    i <= j < |c.sectors| && forall k :: i <= k <= j ==> c.sectors[k].size == z
  }

  /** The longest run of entries of one size around entry `k`. */
  lemma RunAround(c: Chip, k: nat) returns (i: nat, j: nat)
    requires k < |c.sectors|
    ensures i <= k <= j && Run(c, i, j, c.sectors[k].size)
    ensures i > 0 ==> c.sectors[i - 1].size != c.sectors[k].size
    ensures j + 1 < |c.sectors| ==> c.sectors[j + 1].size != c.sectors[k].size
  {
    var z := c.sectors[k].size;
    i, j := k, k;
    while i > 0 && c.sectors[i - 1].size == z
      invariant i <= k && Run(c, i, k, z)
    {
      i := i - 1;
    }
    while j + 1 < |c.sectors| && c.sectors[j + 1].size == z
      invariant k <= j && Run(c, i, j, z)
    {
      j := j + 1;
    }
  }

  lemma RunAligned(c: Chip, i: nat, j: nat, z: nat)
    requires ValidChip(c) && z > 0 && Run(c, i, j, z)
    requires i > 0 ==> c.sectors[i - 1].size != z
    requires j + 1 < |c.sectors| ==> c.sectors[j + 1].size != z
    ensures c.sectors[i].start % z == 0 && EntryEnd(c, j) % z == 0
  {
    assert FitsEnd(c, j);
    if i > 0 { assert FitsEnd(c, i - 1); }
  }

  lemma RunSize(c: Chip, i: nat, j: nat, z: nat, a: u32)
    requires Ordered(c) && Run(c, i, j, z) && c.sectors[i].start <= a < EntryEnd(c, j)
    ensures InFlash(c, a) && SizeAt(c, a) == z
  {
    EntryBounds(c, i);
    EntryBounds(c, j);
    var k := EntryHolding(c, a);
    EntrySize(c, a, k);
    if k < i { EntriesSorted(c, k, i); }
    if j < k { EntriesSorted(c, j, k); }
  }

  /** One sector, inside the covered range; the table gives one and the same size, hence the same sector,
      for all of its addresses. */
  predicate OneSector(c: Chip, addr: u32)
    requires Ordered(c)
  {
    && SizeAt(c, addr) > 0
    && Base(c) <= SectorOf(c, addr) <= addr < SectorOf(c, addr) + SizeAt(c, addr) <= c.limit
    && SectorOf(c, addr) % SizeAt(c, addr) == 0
    && forall a: u32 :: SectorOf(c, addr) <= a < SectorOf(c, addr) + SizeAt(c, addr) ==>
         SizeAt(c, a) == SizeAt(c, addr) && SectorOf(c, a) == SectorOf(c, addr)
  }

  /** Every covered address has one sector; the sector lies in the covered range, and the table
      gives one and the same sector size, hence the same sector, for all of its addresses. */
  lemma SectorGeometry(c: Chip, addr: u32)
    requires ValidChip(c) && InFlash(c, addr)
    ensures SizeAt(c, addr) > 0
    ensures Base(c) <= SectorOf(c, addr) <= addr < SectorOf(c, addr) + SizeAt(c, addr) <= c.limit
    ensures SectorOf(c, addr) % SizeAt(c, addr) == 0
    ensures forall a: u32 :: SectorOf(c, addr) <= a < SectorOf(c, addr) + SizeAt(c, addr) ==>
              SizeAt(c, a) == SizeAt(c, addr) && SectorOf(c, a) == SectorOf(c, addr)
  {
    hide RoundDown;
    var k := EntryHolding(c, addr);
    EntrySize(c, addr, k);
    var i, j := RunAround(c, k);
    var z := c.sectors[k].size;
    RunAligned(c, i, j, z);
    EntriesSorted(c, i, k);
    EntriesSorted(c, k, j);
    EntryBounds(c, i);
    EntryBounds(c, j);
    var s := SectorOf(c, addr);
    RoundDownBetween(addr, z, c.sectors[i].start, EntryEnd(c, j));
    RoundDownMultiple(addr, z);
    forall a: u32 | s <= a < s + z ensures SizeAt(c, a) == z && SectorOf(c, a) == s {
      RunSize(c, i, j, z, a);
      RoundDownBlock(a, z, s);
    }
  }

  /** For every sorted table of positive sizes: rounding by the size the table gives works at every covered
      address if and only if the first start is a multiple of its size, the limit one of the last size, and
      each address at which the size changes one of both sizes. */
  lemma GeometryIff(c: Chip)
    requires Ordered(c)
    ensures (forall a: u32 :: InFlash(c, a) ==> OneSector(c, a)) <==> Aligned(c)
  {
    if Aligned(c) {
      forall a: u32 | InFlash(c, a) ensures OneSector(c, a) { SectorGeometry(c, a); }
    }
    if forall a: u32 :: InFlash(c, a) ==> OneSector(c, a) {
      StartFits(c);
      forall k | 0 <= k < |c.sectors| ensures FitsEnd(c, k) {
        BeforeEnd(c, k);
        if k + 1 < |c.sectors| { AtEnd(c, k); }
      }
    }
  }

  lemma StartFits(c: Chip)
    requires Ordered(c) && (InFlash(c, Base(c)) ==> OneSector(c, Base(c)))
    ensures c.sectors[0].start % c.sectors[0].size == 0
  {
    EntryBounds(c, 0);
    EntrySize(c, Base(c), 0);
  }

  /** The last address of entry `k`: its sector ends there, unless the next entry has the same size. */
  lemma BeforeEnd(c: Chip, k: nat)
    requires Ordered(c) && k < |c.sectors| && forall a: u32 :: InFlash(c, a) ==> OneSector(c, a)
    ensures EntryEnd(c, k) % c.sectors[k].size == 0
            || (k + 1 < |c.sectors| && c.sectors[k + 1].size == c.sectors[k].size)
  {
    hide RoundDown;
    EntryBounds(c, k);
    var end, z := EntryEnd(c, k), c.sectors[k].size;
    var a: u32 := end - 1;
    EntrySize(c, a, k);
    assert OneSector(c, a);
    var s := SectorOf(c, a);
    if s + z > end {
      if k + 1 < |c.sectors| { EntryBounds(c, k + 1); EntrySize(c, end, k + 1); }
    } else {
      MultipleSum(s, z, z);
    }
  }

  /** The first address of the next entry: its sector starts there, unless the size is the same. */
  lemma AtEnd(c: Chip, k: nat)
    requires Ordered(c) && k + 1 < |c.sectors| && forall a: u32 :: InFlash(c, a) ==> OneSector(c, a)
    ensures EntryEnd(c, k) % c.sectors[k + 1].size == 0 || c.sectors[k + 1].size == c.sectors[k].size
  {
    hide RoundDown;
    EntryBounds(c, k);
    EntryBounds(c, k + 1);
    var b := EntryEnd(c, k);
    EntrySize(c, b, k + 1);
    EntrySize(c, b - 1, k);
    assert OneSector(c, b);
  }

  /** The entry starts on, and spans, a multiple of its size. */
  predicate WholeEntry(c: Chip, k: nat)
    requires Ordered(c) && k < |c.sectors|
  {
    var e := c.sectors[k];
    e.start % e.size == 0 && (EntryEnd(c, k) - e.start) % e.size == 0
  }

  /** In particular it works if every entry starts on, and spans, a multiple of its size. */
  lemma EntrywiseAligned(c: Chip)
    requires Ordered(c) && forall k :: 0 <= k < |c.sectors| ==> WholeEntry(c, k)
    ensures Aligned(c)
  {
    assert WholeEntry(c, 0);
    forall k | 0 <= k < |c.sectors| ensures FitsEnd(c, k) { WholeEntryFits(c, k); }
  }

  lemma WholeEntryFits(c: Chip, k: nat)
    requires Ordered(c) && k < |c.sectors| && WholeEntry(c, k)
    requires k + 1 < |c.sectors| ==> WholeEntry(c, k + 1)
    ensures FitsEnd(c, k)
  {
    var e := c.sectors[k];
    assert e.start < EntryEnd(c, k);
    MultipleSum(e.start, EntryEnd(c, k) - e.start, e.size);
  }

  /** Two covered addresses are in one sector exactly when the second lies in the span of the
      sector of the first, whatever sector sizes lie in between. */
  lemma SameSector(c: Chip, a: u32, b: u32)
    requires ValidChip(c) && InFlash(c, a) && InFlash(c, b)
    ensures SizeAt(c, a) > 0 && SizeAt(c, b) > 0
    ensures SectorOf(c, a) == SectorOf(c, b) <==> SectorOf(c, a) <= b < SectorOf(c, a) + SizeAt(c, a)
  {
    SectorGeometry(c, a);
    SectorGeometry(c, b);
  }

  /** A table for which it does not work: one entry that starts off a multiple of its size. The rounded
      address falls out of the table, where the size look-up answers 0. */
  lemma MisalignedEntryBreaks()
    ensures var c := Chip([SectorInfo(0x100, 0x400)], 0x500);
            Ordered(c) && !Aligned(c) && InFlash(c, 0x100) && SizeAt(c, 0x100) == 0x400
            && SectorOf(c, 0x100) == 0 && SizeAt(c, SectorOf(c, 0x100)) == 0
  {
    var t := [SectorInfo(0x100, 0x400)];
    var c := Chip(t, 0x500);
    assert t[..0] == [];
    assert SizeAt(c, 0x100) == 0x400;
  }

  /** A table for which it works although an entry starts off a multiple of its size. */
  lemma SameSizeHarmless()
    ensures ValidChip(Chip([SectorInfo(0, 0x400), SectorInfo(0x200, 0x400)], 0x800))
  {
    var c := Chip([SectorInfo(0, 0x400), SectorInfo(0x200, 0x400)], 0x800);
    assert FitsEnd(c, 0) && FitsEnd(c, 1);
  }

  /** The look-up is open-ended: behind the last sector run it goes on answering with the last size. */
  lemma OpenEnded(c: Chip, addr: u32)
    requires Ordered(c) && addr >= c.limit
    ensures SizeAt(c, addr) == c.sectors[|c.sectors| - 1].size > 0
  {
    EntryBounds(c, |c.sectors| - 1);
    ScanFinds(c.sectors, addr, |c.sectors| - 1);
  }

  // ---- what a configuration must satisfy ----

  /** The algorithm's RAM: blob, then its data and stack, then the page buffer. The blob is not
      overlapped, the page buffer is not empty, and none of it lies in the chip's flash. */
  predicate Placed(c: Chip, a: Algo)
    requires c.sectors != []
  {
    && 4 <= |a.blob|
    && a.algoStart + |a.blob| <= a.stackPointer <= a.programBuffer
    && 0 < a.programBuffer
    && 0 < a.programBufferSize
    && a.programBuffer + a.programBufferSize <= ADDRESS_SPACE
    && (a.programBuffer + a.programBufferSize <= Base(c) || c.limit <= a.algoStart)
  }

  predicate PlacedRegion(c: Chip, r: Region)
    requires c.sectors != []
  {
    r.algo.Some? ==> Placed(c, r.algo.value)
  }

  /** The configuration describes the chip. */
  predicate Describes(cfg: Config, c: Chip) {
    && ValidChip(c)
    && cfg.sectors == c.sectors
    && forall r :: r in cfg.regions ==> PlacedRegion(c, r)
  }
}
