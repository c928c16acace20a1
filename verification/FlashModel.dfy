/** What the sector write-back buffer means: a flash written one byte at a time through one open,
    0xFF-filled sector; and what such writes leave in the flash. */
module FlashModel {
  import opened Words
  import opened FlashIface

  /** One byte to be written at one address. */
  datatype Cell = Cell(addr: u32, value: byte)

  datatype Cache = Idle | Opened(sector: u32, data: seq<byte>)

  /** The flash window of the chip, and the sector that is being gathered. */
  datatype Store = Store(flash: seq<byte>, cache: Cache)

  predicate Window(c: Chip, f: seq<byte>) {
    ValidChip(c) && |f| == c.limit - Base(c)
  }

  /** `s` names a whole sector of `z` bytes inside the flash. */
  predicate IsSector(c: Chip, s: u32, z: nat)
    requires ValidChip(c)
  {
    InFlash(c, s) && SizeAt(c, s) == z > 0 && SectorOf(c, s) == s
  }

  predicate Sound(c: Chip, m: Store) {
    && Window(c, m.flash)
    && (m.cache.Opened? ==> IsSector(c, m.cache.sector, |m.cache.data|))
  }

  lemma SectorFits(c: Chip, s: u32, z: nat)
    requires ValidChip(c) && IsSector(c, s, z)
    ensures Base(c) <= s && s + z <= c.limit
  {
    SectorGeometry(c, s);
  }

  lemma SectorOfAll(c: Chip, s: u32, z: nat)
    requires ValidChip(c) && IsSector(c, s, z)
    ensures forall a: u32 :: s <= a < s + z ==> SizeAt(c, a) == z && SectorOf(c, a) == s
  {
    SectorGeometry(c, s);
  }

  lemma SectorStart(c: Chip, a: u32)
    requires ValidChip(c) && InFlash(c, a)
    ensures SizeAt(c, a) > 0 && IsSector(c, SectorOf(c, a), SizeAt(c, a))
  {
    SectorGeometry(c, a);
  }

  // ---- one byte at a time ----

  function Commit(c: Chip, m: Store): (r: Store)
    requires Sound(c, m)
    ensures Sound(c, r) && r.cache.Idle?
  {
    match m.cache
    case Idle => m
    case Opened(s, d) =>
      SectorFits(c, s, |d|);
      Store(Overlay(m.flash, s - Base(c), d), Idle)
  }

  /** Moving to `addr` commits the open sector unless the address is inside it. */
  function Leave(c: Chip, m: Store, addr: u32): (r: Store)
    requires Sound(c, m)
    ensures Sound(c, r)
  {
    if m.cache.Opened? && !(m.cache.sector <= addr < m.cache.sector + |m.cache.data|)
    then Commit(c, m) else m
  }

  /** The open sector at `addr`; a fresh one is all 0xFF. */
  function Gather(c: Chip, m: Store, addr: u32): (r: Store)
    requires Sound(c, m) && InFlash(c, addr)
    ensures Sound(c, r) && r.cache.Opened? && r.cache.sector <= addr < r.cache.sector + |r.cache.data|
  {
    SectorGeometry(c, addr);
    var l := Leave(c, m, addr);
    if l.cache.Opened? then l
    else Store(l.flash, Opened(SectorOf(c, addr), Filled(SizeAt(c, addr), ERASED)))
  }

  /** The byte goes into the open sector, which is committed when its last byte is written. */
  function Put(c: Chip, m: Store, x: Cell): (r: Store)
    requires Sound(c, m) && InFlash(c, x.addr)
    ensures Sound(c, r)
  {
    var g := Gather(c, m, x.addr);
    var Opened(s, d) := g.cache;
    var w := Store(g.flash, Opened(s, d[x.addr - s := x.value]));
    if x.addr + 1 == s + |d| then Commit(c, w) else w
  }

  predicate Inside(c: Chip, xs: seq<Cell>)
    requires c.sectors != []
  {
    forall i :: 0 <= i < |xs| ==> InFlash(c, xs[i].addr)
  }

  function PutAll(c: Chip, m: Store, xs: seq<Cell>): (r: Store)
    requires Sound(c, m) && Inside(c, xs)
    ensures Sound(c, r)
    decreases |xs|
  {
    if xs == [] then m else PutAll(c, Put(c, m, xs[0]), xs[1..])
  }

  lemma {:induction false} PutAllAppend(c: Chip, m: Store, xs: seq<Cell>, ys: seq<Cell>)
    requires Sound(c, m) && Inside(c, xs) && Inside(c, ys)
    ensures Inside(c, xs + ys)
    ensures PutAll(c, m, xs + ys) == PutAll(c, PutAll(c, m, xs), ys)
    decreases |xs|
  {
    if xs == [] {
      assert xs + ys == ys;
    } else {
      assert (xs + ys)[1..] == xs[1..] + ys;
      PutAllAppend(c, Put(c, m, xs[0]), xs[1..], ys);
    }
  }

  /** The flash after a whole session of writes. */
  function Written(c: Chip, f: seq<byte>, xs: seq<Cell>): (r: seq<byte>)
    requires Window(c, f) && Inside(c, xs)
    ensures Window(c, r)
  {
    Commit(c, PutAll(c, Store(f, Idle), xs)).flash
  }

  // ---- a write of many bytes ----

  /** The bytes `data` at consecutive addresses from `addr` on. */
  function Cells(addr: nat, data: seq<byte>): (r: seq<Cell>)
    requires addr + |data| <= ADDRESS_SPACE
    ensures |r| == |data| && forall i :: 0 <= i < |r| ==> r[i] == Cell(addr + i, data[i])
  {
    seq(|data|, i requires 0 <= i < |data| => Cell(addr + i, data[i]))
  }

  lemma CellsAppend(addr: nat, d: seq<byte>, e: seq<byte>)
    requires addr + |d| + |e| <= ADDRESS_SPACE
    ensures Cells(addr, d + e) == Cells(addr, d) + Cells(addr + |d|, e)
  {
  }

  /** A write: move to the address, then put every byte. Also right for an empty write. */
  function WriteAt(c: Chip, m: Store, addr: u32, data: seq<byte>): (r: Store)
    requires Sound(c, m) && Base(c) <= addr && addr + |data| <= c.limit
    ensures Sound(c, r)
  {
    PutAll(c, Leave(c, m, addr), Cells(addr, data))
  }

  lemma LeaveTwice(c: Chip, m: Store, addr: u32)
    requires Sound(c, m)
    ensures Leave(c, Leave(c, m, addr), addr) == Leave(c, m, addr)
  {
  }

  lemma PutLeft(c: Chip, m: Store, x: Cell)
    requires Sound(c, m) && InFlash(c, x.addr)
    ensures Put(c, Leave(c, m, x.addr), x) == Put(c, m, x)
  {
    LeaveTwice(c, m, x.addr);
    assert Gather(c, Leave(c, m, x.addr), x.addr) == Gather(c, m, x.addr);
  }

  /** A non-empty write is nothing but its bytes. */
  lemma WriteIsCells(c: Chip, m: Store, addr: u32, data: seq<byte>)
    requires Sound(c, m) && Base(c) <= addr && addr + |data| <= c.limit && data != []
    ensures WriteAt(c, m, addr, data) == PutAll(c, m, Cells(addr, data))
  {
    PutLeft(c, m, Cells(addr, data)[0]);
  }

  lemma PutAllOne(c: Chip, m: Store, x: Cell)
    requires Sound(c, m) && InFlash(c, x.addr)
    ensures PutAll(c, m, [x]) == Put(c, m, x)
  {
    assert [x][1..] == [];
  }

  lemma PutAllLast(c: Chip, m: Store, xs: seq<Cell>, x: Cell)
    requires Sound(c, m) && Inside(c, xs) && InFlash(c, x.addr)
    ensures Inside(c, xs + [x])
    ensures PutAll(c, m, xs + [x]) == Put(c, PutAll(c, m, xs), x)
  {
    PutAllAppend(c, m, xs, [x]);
    PutAllOne(c, PutAll(c, m, xs), x);
  }

  /** After a byte the next address is in the open sector, or no sector is open. */
  lemma PutStays(c: Chip, m: Store, x: Cell)
    requires Sound(c, m) && InFlash(c, x.addr) && InFlash(c, x.addr + 1)
    ensures Leave(c, Put(c, m, x), x.addr + 1) == Put(c, m, x)
  {
  }

  lemma WriteStays(c: Chip, m: Store, addr: u32, d: seq<byte>)
    requires Sound(c, m) && Base(c) <= addr && addr + |d| < c.limit
    ensures Leave(c, WriteAt(c, m, addr, d), addr + |d|) == WriteAt(c, m, addr, d)
  {
    if d == [] {
      LeaveTwice(c, m, addr);
    } else {
      var l, xs, k := Leave(c, m, addr), Cells(addr, d), |d| - 1;
      assert xs == xs[..k] + [xs[k]];
      PutAllLast(c, l, xs[..k], xs[k]);
      PutStays(c, PutAll(c, l, xs[..k]), xs[k]);
    }
  }

  /** Splitting a consecutive write into two pieces, even into empty ones, does not change what it does. */
  lemma SplitWrite(c: Chip, m: Store, addr: u32, d: seq<byte>, e: seq<byte>)
    requires Sound(c, m) && Base(c) <= addr && addr + |d| + |e| <= c.limit && addr + |d| < c.limit
    ensures WriteAt(c, WriteAt(c, m, addr, d), addr + |d|, e) == WriteAt(c, m, addr, d + e)
  {
    CellsAppend(addr, d, e);
    PutAllAppend(c, Leave(c, m, addr), Cells(addr, d), Cells(addr + |d|, e));
    WriteStays(c, m, addr, d);
  }

  /** The store with `data` laid over its open sector. */
  function Laid(c: Chip, g: Store, addr: u32, data: seq<byte>): (r: Store)
    requires Sound(c, g) && g.cache.Opened?
    requires g.cache.sector <= addr && addr + |data| <= g.cache.sector + |g.cache.data|
    ensures Sound(c, r)
  {
    Store(g.flash, Opened(g.cache.sector, Overlay(g.cache.data, addr - g.cache.sector, data)))
  }

  lemma PutFirst(c: Chip, g: Store, x: Cell)
    requires Sound(c, g) && g.cache.Opened? && InFlash(c, x.addr)
    requires g.cache.sector <= x.addr < g.cache.sector + |g.cache.data|
    ensures var w := Laid(c, g, x.addr, [x.value]);
            Put(c, g, x) == if x.addr + 1 == g.cache.sector + |g.cache.data| then Commit(c, w) else w
  {
    assert Overlay(g.cache.data, x.addr - g.cache.sector, [x.value])
        == g.cache.data[x.addr - g.cache.sector := x.value];
  }

  lemma LaidTwice(c: Chip, g: Store, addr: u32, d: seq<byte>, e: seq<byte>)
    requires Sound(c, g) && g.cache.Opened?
    requires g.cache.sector <= addr && addr + |d| + |e| <= g.cache.sector + |g.cache.data|
    requires addr + |d| < ADDRESS_SPACE
    ensures Laid(c, Laid(c, g, addr, d), addr + |d|, e) == Laid(c, g, addr, d + e)
  {
    var s, o := g.cache.sector, g.cache.data;
    assert Overlay(Overlay(o, addr - s, d), addr + |d| - s, e) == Overlay(o, addr - s, d + e);
  }

  lemma PutTail(c: Chip, g: Store, addr: u32, x: byte, rest: seq<byte>)
    requires Sound(c, g) && InFlash(c, addr) && addr + 1 + |rest| <= c.limit
    ensures PutAll(c, g, Cells(addr, [x] + rest)) == PutAll(c, Put(c, g, Cell(addr, x)), Cells(addr + 1, rest))
  {
    CellsAppend(addr, [x], rest);
    assert Cells(addr, [x]) == [Cell(addr, x)];
    PutAllAppend(c, g, [Cell(addr, x)], Cells(addr + 1, rest));
    PutAllOne(c, g, Cell(addr, x));
  }

  /** A piece that stays inside the open sector overlays it at once. */
  lemma {:induction false} PutOpen(c: Chip, g: Store, addr: u32, data: seq<byte>)
    requires Sound(c, g) && g.cache.Opened? && data != []
    requires g.cache.sector <= addr && addr + |data| <= g.cache.sector + |g.cache.data|
    ensures Base(c) <= addr && addr + |data| <= c.limit
    ensures PutAll(c, g, Cells(addr, data)) ==
            if addr + |data| == g.cache.sector + |g.cache.data| then Commit(c, Laid(c, g, addr, data))
            else Laid(c, g, addr, data)
    decreases |data|
  {
    hide Put, Commit, IsSector;
    var x, rest := data[0], data[1..];
    assert data == [x] + rest;
    SectorFits(c, g.cache.sector, |g.cache.data|);
    PutFirst(c, g, Cell(addr, x));
    PutTail(c, g, addr, x, rest);
    if rest == [] {
      assert data == [x] && Cells(addr + 1, rest) == [];
    } else {
      LaidTwice(c, g, addr, [x], rest);
      PutOpen(c, Laid(c, g, addr, [x]), addr + 1, rest);
    }
  }

  lemma PutGathered(c: Chip, m: Store, x: Cell)
    requires Sound(c, m) && InFlash(c, x.addr)
    ensures Put(c, m, x) == Put(c, Gather(c, m, x.addr), x)
  {
    var g := Gather(c, m, x.addr);
    assert Leave(c, g, x.addr) == g;
  }

  /** Bytes are put the same whether or not the sector of the first one was opened before. */
  lemma PutAllGathered(c: Chip, m: Store, xs: seq<Cell>)
    requires Sound(c, m) && xs != [] && Inside(c, xs)
    ensures PutAll(c, m, xs) == PutAll(c, Gather(c, m, xs[0].addr), xs)
  {
    PutGathered(c, m, xs[0]);
  }

  // ---- writes that find the flash as they leave it ----

  /** No commit on the way changes the flash. */
  predicate Quiet(c: Chip, m: Store, xs: seq<Cell>)
    requires Sound(c, m) && Inside(c, xs)
    decreases |xs|
  {
    xs != [] ==>
      && Leave(c, m, xs[0].addr).flash == m.flash
      && Put(c, m, xs[0]).flash == m.flash
      && Quiet(c, Put(c, m, xs[0]), xs[1..])
  }

  lemma {:induction false} QuietAppend(c: Chip, m: Store, xs: seq<Cell>, ys: seq<Cell>)
    requires Sound(c, m) && Inside(c, xs) && Inside(c, ys)
    ensures Inside(c, xs + ys)
    ensures Quiet(c, m, xs + ys) <==> Quiet(c, m, xs) && Quiet(c, PutAll(c, m, xs), ys)
    decreases |xs|
  {
    if xs == [] {
      assert xs + ys == ys;
    } else {
      assert (xs + ys)[1..] == xs[1..] + ys;
      QuietAppend(c, Put(c, m, xs[0]), xs[1..], ys);
    }
  }

  lemma {:induction false} QuietKeeps(c: Chip, m: Store, xs: seq<Cell>)
    requires Sound(c, m) && Inside(c, xs) && Quiet(c, m, xs)
    ensures PutAll(c, m, xs).flash == m.flash
    decreases |xs|
  {
    if xs != [] { QuietKeeps(c, Put(c, m, xs[0]), xs[1..]); }
  }

  /** The write at `addr` finds everything it commits already in the flash. */
  predicate QuietWrite(c: Chip, m: Store, addr: u32, data: seq<byte>)
    requires Sound(c, m) && Base(c) <= addr && addr + |data| <= c.limit
  {
    var l := Leave(c, m, addr);
    l.flash == m.flash && Quiet(c, l, Cells(addr, data))
  }

  lemma QuietWriteIsQuiet(c: Chip, m: Store, addr: u32, data: seq<byte>)
    requires Sound(c, m) && Base(c) <= addr && addr + |data| <= c.limit && data != []
    requires Quiet(c, m, Cells(addr, data))
    ensures QuietWrite(c, m, addr, data)
  {
    var x := Cells(addr, data)[0];
    PutLeft(c, m, x);
    LeaveTwice(c, m, addr);
  }
}
