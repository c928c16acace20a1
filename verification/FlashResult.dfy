/** What a session of byte writes leaves in the flash: the exact byte at every address, when written
    bytes survive, and why writing an image that is already there changes nothing. */
module FlashResult {
  import opened Words
  import opened FlashIface
  import opened FlashModel

  // ---- the byte every address ends up with ----

  predicate Together(c: Chip, a: u32, b: u32)
    requires ValidChip(c) && InFlash(c, a) && InFlash(c, b)
  {
    SectorStart(c, a);
    SectorStart(c, b);
    SectorOf(c, a) == SectorOf(c, b)
  }

  predicate LastOfSector(c: Chip, a: u32)
    requires ValidChip(c) && InFlash(c, a)
  {
    SectorStart(c, a);
    a + 1 == SectorOf(c, a) + SizeAt(c, a)
  }

  /** After the writes `xs`, a write to `a` opens a fresh buffer: the previous byte went to another
      sector, or it was the last byte of this one. */
  predicate Fresh(c: Chip, xs: seq<Cell>, a: u32)
    requires ValidChip(c) && Inside(c, xs) && InFlash(c, a)
  {
    xs == [] || !Together(c, xs[|xs| - 1].addr, a) || LastOfSector(c, xs[|xs| - 1].addr)
  }

  /** The byte at `a` after the writes: the last one written there since its sector was last opened;
      0xFF if there is none; the old byte if the sector was never opened. */
  function View(c: Chip, f: seq<byte>, xs: seq<Cell>, a: u32): byte
    requires Window(c, f) && Inside(c, xs) && InFlash(c, a)
    decreases |xs|
  {
    if xs == [] then f[a - Base(c)]
    else
      var before, x := xs[..|xs| - 1], xs[|xs| - 1];
      if x.addr == a then x.value
      else if Together(c, x.addr, a) && Fresh(c, before, x.addr) then ERASED
      else View(c, f, before, a)
  }

  /** The byte the store shows at `a`, in the open sector or in the flash. */
  function Shown(c: Chip, m: Store, a: u32): byte
    requires Sound(c, m) && InFlash(c, a)
  {
    if m.cache.Opened? && m.cache.sector <= a < m.cache.sector + |m.cache.data|
    then m.cache.data[a - m.cache.sector]
    else m.flash[a - Base(c)]
  }

  lemma CommitShows(c: Chip, m: Store, a: u32)
    requires Sound(c, m) && InFlash(c, a)
    ensures Commit(c, m).flash[a - Base(c)] == Shown(c, m, a) == Shown(c, Commit(c, m), a)
  {
    if m.cache.Opened? { SectorFits(c, m.cache.sector, |m.cache.data|); }
  }

  predicate OpenAt(c: Chip, m: Store, a: u32)
    requires Sound(c, m)
  {
    m.cache.Opened? && m.cache.sector <= a < m.cache.sector + |m.cache.data|
  }

  lemma GatherCase(c: Chip, m: Store, x: u32)
    requires Sound(c, m) && InFlash(c, x)
    ensures SizeAt(c, x) > 0
    ensures var g := Gather(c, m, x).cache; g.sector == SectorOf(c, x) && |g.data| == SizeAt(c, x)
    ensures Gather(c, m, x) ==
            if OpenAt(c, m, x) then m
            else Store(Commit(c, m).flash, Opened(SectorOf(c, x), Filled(SizeAt(c, x), ERASED)))
  {
    SectorGeometry(c, x);
    if m.cache.Opened? { SectorOfAll(c, m.cache.sector, |m.cache.data|); }
  }

  lemma GatherShows(c: Chip, m: Store, x: u32, a: u32)
    requires Sound(c, m) && InFlash(c, x) && InFlash(c, a)
    ensures Shown(c, Gather(c, m, x), a) ==
            if Together(c, x, a) && !OpenAt(c, m, x) then ERASED else Shown(c, m, a)
  {
    GatherCase(c, m, x);
    SameSector(c, x, a);
    CommitShows(c, m, a);
  }

  lemma PutShows(c: Chip, m: Store, x: Cell, a: u32)
    requires Sound(c, m) && InFlash(c, x.addr) && InFlash(c, a)
    ensures Shown(c, Put(c, m, x), a) ==
            if a == x.addr then x.value
            else if Together(c, x.addr, a) && !OpenAt(c, m, x.addr) then ERASED
            else Shown(c, m, a)
  {
    hide Commit, IsSector, OpenAt, Together;
    GatherShows(c, m, x.addr, a);
    var g := Gather(c, m, x.addr);
    var Opened(s, d) := g.cache;
    var w := Store(g.flash, Opened(s, d[x.addr - s := x.value]));
    assert Shown(c, w, a) == if a == x.addr then x.value else Shown(c, g, a);
    CommitShows(c, w, a);
    assert Put(c, m, x) == if x.addr + 1 == s + |d| then Commit(c, w) else w;
  }

  lemma PutOpens(c: Chip, m: Store, x: Cell, a: u32)
    requires Sound(c, m) && InFlash(c, x.addr) && InFlash(c, a)
    ensures OpenAt(c, Put(c, m, x), a) <==> Together(c, x.addr, a) && !LastOfSector(c, x.addr)
  {
    GatherCase(c, m, x.addr);
    SameSector(c, x.addr, a);
  }

  lemma {:induction false} SessionShows(c: Chip, f: seq<byte>, xs: seq<Cell>, a: u32)
    requires Window(c, f) && Inside(c, xs) && InFlash(c, a)
    ensures var m := PutAll(c, Store(f, Idle), xs);
            Shown(c, m, a) == View(c, f, xs, a) && (OpenAt(c, m, a) <==> !Fresh(c, xs, a))
    decreases |xs|
  {
    if xs != [] {
      var before, x := xs[..|xs| - 1], xs[|xs| - 1];
      assert xs == before + [x];
      PutAllLast(c, Store(f, Idle), before, x);
      var m := PutAll(c, Store(f, Idle), before);
      SessionShows(c, f, before, a);
      SessionShows(c, f, before, x.addr);
      PutShows(c, m, x, a);
      PutOpens(c, m, x, a);
    }
  }

  /** Every byte of the flash after any sequence of writes, in closed form. */
  lemma WrittenView(c: Chip, f: seq<byte>, xs: seq<Cell>, a: u32)
    requires Window(c, f) && Inside(c, xs) && InFlash(c, a)
    ensures Written(c, f, xs)[a - Base(c)] == View(c, f, xs, a)
  {
    SessionShows(c, f, xs, a);
    CommitShows(c, PutAll(c, Store(f, Idle), xs), a);
  }

  // ---- when written bytes survive ----

  /** The sector of `xs[i]` is opened afresh by a later byte. */
  predicate Reopened(c: Chip, xs: seq<Cell>, i: nat)
    requires ValidChip(c) && Inside(c, xs) && i < |xs|
  {
    exists j :: i < j < |xs| && Reopens(c, xs, i, j)
  }

  predicate Reopens(c: Chip, xs: seq<Cell>, i: nat, j: nat)
    requires ValidChip(c) && Inside(c, xs) && i < j < |xs|
  {
    Together(c, xs[j].addr, xs[i].addr) && Fresh(c, xs[..j], xs[j].addr)
  }

  predicate LastWriteTo(xs: seq<Cell>, i: nat, a: u32)
    requires i < |xs|
  {
    xs[i].addr == a && forall j :: i < j < |xs| ==> xs[j].addr != a
  }

  lemma {:induction false} LastWriteShows(c: Chip, f: seq<byte>, xs: seq<Cell>, i: nat)
    requires Window(c, f) && Inside(c, xs) && i < |xs| && LastWriteTo(xs, i, xs[i].addr)
    ensures View(c, f, xs, xs[i].addr) == if Reopened(c, xs, i) then ERASED else xs[i].value
    decreases |xs|
  {
    var n := |xs| - 1;
    if i < n {
      var before := xs[..n];
      LastWriteShows(c, f, before, i);
      forall j | i < j < n ensures Reopens(c, before, i, j) == Reopens(c, xs, i, j) {
        assert before[..j] == xs[..j];
      }
      assert Reopened(c, xs, i) <==> Reopened(c, before, i) || Reopens(c, xs, i, n);
    }
  }

  /** A byte that is not overwritten is in the flash at the end of the session exactly when its sector
      is not opened afresh after it, or it is 0xFF. So returning to a sector that was flushed loses
      what was written there, and nothing else does. */
  lemma SurvivesIff(c: Chip, f: seq<byte>, xs: seq<Cell>, i: nat)
    requires Window(c, f) && Inside(c, xs) && i < |xs| && LastWriteTo(xs, i, xs[i].addr)
    ensures Written(c, f, xs)[xs[i].addr - Base(c)] == xs[i].value
            <==> (!Reopened(c, xs, i) || xs[i].value == ERASED)
  {
    WrittenView(c, f, xs, xs[i].addr);
    LastWriteShows(c, f, xs, i);
  }

  /** No sector is ever opened afresh. */
  predicate Orderly(c: Chip, xs: seq<Cell>)
    requires ValidChip(c) && Inside(c, xs)
  {
    forall i, j :: 0 <= i < j < |xs| ==> !Reopens(c, xs, i, j)
  }

  predicate Ascending(xs: seq<Cell>) {
    forall i, j :: 0 <= i < j < |xs| ==> xs[i].addr < xs[j].addr
  }

  lemma AscendingOrderly(c: Chip, xs: seq<Cell>)
    requires ValidChip(c) && Inside(c, xs) && Ascending(xs)
    ensures Orderly(c, xs)
  {
    forall i, j | 0 <= i < j < |xs| ensures !Reopens(c, xs, i, j) {
      var p := xs[..j][j - 1].addr;
      assert xs[i].addr <= p < xs[j].addr;
      SectorGeometry(c, xs[i].addr);
      SameSector(c, xs[i].addr, xs[j].addr);
      SameSector(c, xs[i].addr, p);
    }
  }

  /** Some byte of `xs` goes to the sector of `a`. */
  predicate Touches(c: Chip, xs: seq<Cell>, a: u32)
    requires ValidChip(c) && InFlash(c, a)
  {
    exists i :: 0 <= i < |xs| && InFlash(c, xs[i].addr) && Together(c, xs[i].addr, a)
  }

  /** The flash `r` holds the last byte written to each written address; the rest of every touched
      sector is 0xFF; every untouched sector is as in `f`. */
  ghost predicate Holds(c: Chip, f: seq<byte>, xs: seq<Cell>, r: seq<byte>)
    requires Window(c, f) && Inside(c, xs)
  {
    && |r| == |f|
    && (forall i :: 0 <= i < |xs| && LastWriteTo(xs, i, xs[i].addr) ==> r[xs[i].addr - Base(c)] == xs[i].value)
    && (forall a: u32 :: InFlash(c, a) && Touches(c, xs, a) && (forall i :: 0 <= i < |xs| ==> xs[i].addr != a) ==>
          r[a - Base(c)] == 0xFF)
    && (forall a: u32 :: InFlash(c, a) && !Touches(c, xs, a) ==> r[a - Base(c)] == f[a - Base(c)])
  }

  lemma {:induction false} UnwrittenShows(c: Chip, f: seq<byte>, xs: seq<Cell>, a: u32)
    requires Window(c, f) && Inside(c, xs) && InFlash(c, a)
    requires forall i :: 0 <= i < |xs| ==> xs[i].addr != a
    ensures View(c, f, xs, a) == if Touches(c, xs, a) then ERASED else f[a - Base(c)]
    decreases |xs|
  {
    if xs != [] {
      var before, x := xs[..|xs| - 1], xs[|xs| - 1];
      UnwrittenShows(c, f, before, a);
      if Touches(c, before, a) {
        var i :| 0 <= i < |before| && Together(c, before[i].addr, a);
        assert Together(c, xs[i].addr, a);
      } else if Together(c, x.addr, a) {
        assert Together(c, xs[|xs| - 1].addr, a);
        if before != [] { assert !Together(c, before[|before| - 1].addr, a); }
      } else {
        forall i | 0 <= i < |xs| ensures !Together(c, xs[i].addr, a) {
          if i < |before| { assert before[i] == xs[i]; }
        }
      }
    }
  }

  /** Writes that never return to a flushed sector leave exactly the image; so do ascending ones. */
  lemma OrderlyHolds(c: Chip, f: seq<byte>, xs: seq<Cell>)
    requires Window(c, f) && Inside(c, xs) && Orderly(c, xs)
    ensures Holds(c, f, xs, Written(c, f, xs))
  {
    var r := Written(c, f, xs);
    forall i | 0 <= i < |xs| && LastWriteTo(xs, i, xs[i].addr)
      ensures r[xs[i].addr - Base(c)] == xs[i].value
    {
      SurvivesIff(c, f, xs, i);
    }
    forall a: u32 | InFlash(c, a) && forall i :: 0 <= i < |xs| ==> xs[i].addr != a
      ensures r[a - Base(c)] == if Touches(c, xs, a) then ERASED else f[a - Base(c)]
    {
      WrittenView(c, f, xs, a);
      UnwrittenShows(c, f, xs, a);
    }
    forall a: u32 | InFlash(c, a) && !Touches(c, xs, a)
      ensures forall i :: 0 <= i < |xs| ==> xs[i].addr != a
    {
    }
  }

  /** Every written address has a last write. */
  lemma {:induction false} LastWriteExists(xs: seq<Cell>, i: nat) returns (k: nat)
    requires i < |xs|
    ensures i <= k < |xs| && LastWriteTo(xs, k, xs[i].addr)
    decreases |xs| - i
  {
    if j :| i < j < |xs| && xs[j].addr == xs[i].addr {
      k := LastWriteExists(xs, j);
    } else {
      k := i;
    }
  }

  lemma HoldsAt(c: Chip, f: seq<byte>, xs: seq<Cell>, r: seq<byte>, w: seq<byte>, a: u32)
    requires Window(c, f) && Inside(c, xs) && Holds(c, f, xs, r) && Holds(c, f, xs, w) && InFlash(c, a)
    ensures r[a - Base(c)] == w[a - Base(c)]
  {
    hide Touches, LastWriteTo;
    if i :| 0 <= i < |xs| && xs[i].addr == a {
      var j := LastWriteExists(xs, i);
      assert xs[j].addr == a by { assert LastWriteTo(xs, j, a); LastWriteAddress(xs, j, a); }
    } else if Touches(c, xs, a) {
    } else {
    }
  }

  lemma LastWriteAddress(xs: seq<Cell>, i: nat, a: u32)
    requires i < |xs| && LastWriteTo(xs, i, a)
    ensures xs[i].addr == a
  {
  }

  /** For orderly writes "holds exactly the image" describes one flash content and no other. */
  lemma OrderlyHoldsOnly(c: Chip, f: seq<byte>, xs: seq<Cell>, r: seq<byte>)
    requires Window(c, f) && Inside(c, xs) && Orderly(c, xs)
    ensures Holds(c, f, xs, r) <==> r == Written(c, f, xs)
  {
    hide Orderly, Written;
    OrderlyHolds(c, f, xs);
    if Holds(c, f, xs, r) {
      HoldsOnce(c, f, xs, r, Written(c, f, xs));
    }
  }

  lemma HoldsLength(c: Chip, f: seq<byte>, xs: seq<Cell>, r: seq<byte>)
    requires Window(c, f) && Inside(c, xs) && Holds(c, f, xs, r)
    ensures |r| == |f|
  {
  }

  lemma HoldsOnce(c: Chip, f: seq<byte>, xs: seq<Cell>, r: seq<byte>, w: seq<byte>)
    requires Window(c, f) && Inside(c, xs) && Holds(c, f, xs, r) && Holds(c, f, xs, w)
    ensures r == w
  {
    hide Touches, LastWriteTo, Holds;
    HoldsLength(c, f, xs, r);
    HoldsLength(c, f, xs, w);
    forall k | 0 <= k < |f| ensures r[k] == w[k] {
      var a: u32 := Base(c) + k;
      HoldsAt(c, f, xs, r, w, a);
      assert k == a - Base(c);
    }
    assert |r| == |w| == |f|;
  }

  // ---- what a session spares, whether it succeeds or not ----

  /** From flash content `f` to `g`: no byte outside the sectors that `xs` touches has changed. */
  ghost predicate Kept(c: Chip, f: seq<byte>, g: seq<byte>, xs: seq<Cell>) {
    && Window(c, f) && Window(c, g)
    && forall a: u32 :: InFlash(c, a) && !Touches(c, xs, a) ==> g[a - Base(c)] == f[a - Base(c)]
  }

  lemma TouchesMore(c: Chip, xs: seq<Cell>, ys: seq<Cell>, a: u32)
    requires ValidChip(c) && InFlash(c, a) && xs <= ys && Touches(c, xs, a)
    ensures Touches(c, ys, a)
  {
    var i :| 0 <= i < |xs| && InFlash(c, xs[i].addr) && Together(c, xs[i].addr, a);
    assert ys[i] == xs[i];
  }

  lemma KeptMore(c: Chip, f: seq<byte>, g: seq<byte>, xs: seq<Cell>, ys: seq<Cell>)
    requires Kept(c, f, g, xs) && xs <= ys
    ensures Kept(c, f, g, ys)
  {
    forall a: u32 | InFlash(c, a) && !Touches(c, ys, a) ensures g[a - Base(c)] == f[a - Base(c)] {
      if Touches(c, xs, a) { TouchesMore(c, xs, ys, a); }
    }
  }

  lemma KeptSame(c: Chip, f: seq<byte>, xs: seq<Cell>)
    requires Window(c, f)
    ensures Kept(c, f, f, xs)
  {
  }

  /** A byte in the same sector touches as much. */
  lemma TouchesTogether(c: Chip, xs: seq<Cell>, a: u32, b: u32)
    requires ValidChip(c) && InFlash(c, a) && InFlash(c, b) && Together(c, a, b) && Touches(c, xs, a)
    ensures Touches(c, xs, b)
  {
    var i :| 0 <= i < |xs| && InFlash(c, xs[i].addr) && Together(c, xs[i].addr, a);
    assert Together(c, xs[i].addr, b);
  }

  /** A change inside a sector that `xs` touches. */
  lemma KeptSector(c: Chip, f: seq<byte>, g: seq<byte>, h: seq<byte>, xs: seq<Cell>, s: u32, z: nat)
    requires Kept(c, f, g, xs) && IsSector(c, s, z) && Touches(c, xs, s)
    requires Base(c) <= s && SameAround(g, h, s - Base(c), z)
    ensures Kept(c, f, h, xs)
  {
    hide Touches;
    SectorOfAll(c, s, z);
    forall a: u32 | InFlash(c, a) && !Touches(c, xs, a) ensures h[a - Base(c)] == f[a - Base(c)] {
      if s <= a < s + z { TouchesTogether(c, xs, s, a); }
      OutsideSame(g, h, s - Base(c), z, a - Base(c));
    }
  }

  lemma OutsideSame(g: seq<byte>, h: seq<byte>, at: nat, n: nat, i: nat)
    requires SameAround(g, h, at, n) && i < |g|
    ensures i < at || at + n <= i ==> h[i] == g[i]
  {
    if i < at {
      assert h[i] == h[..at][i] == g[..at][i];
    } else if at + n <= i {
      assert h[i] == h[at + n..][i - at - n] == g[at + n..][i - at - n];
    }
  }

  // ---- what is final before the session is closed ----

  /** Nothing but the open sector of `m` has changed: the flash is `g` now. */
  ghost predicate OnlyOpen(c: Chip, m: Store, g: seq<byte>) {
    && Sound(c, m) && Window(c, g)
    && forall a: u32 :: InFlash(c, a) && !OpenAt(c, m, a) ==> g[a - Base(c)] == m.flash[a - Base(c)]
  }

  lemma OnlyOpenSector(c: Chip, f: seq<byte>, g: seq<byte>, s: u32, d: seq<byte>)
    requires Window(c, f) && IsSector(c, s, |d|)
    requires Base(c) <= s && SameAround(f, g, s - Base(c), |d|)
    ensures OnlyOpen(c, Store(f, Opened(s, d)), g)
  {
    forall a: u32 | InFlash(c, a) && !OpenAt(c, Store(f, Opened(s, d)), a) ensures g[a - Base(c)] == f[a - Base(c)] {
      OutsideSame(f, g, s - Base(c), |d|, a - Base(c));
    }
  }

  /** The last byte is the last one of its sector. */
  predicate EndsSector(c: Chip, xs: seq<Cell>)
    requires ValidChip(c)
  {
    xs != [] && InFlash(c, xs[|xs| - 1].addr) && LastOfSector(c, xs[|xs| - 1].addr)
  }

  /** Every sector but that of the last byte, unless this ends its sector, has its final content. */
  ghost predicate Settled(c: Chip, f: seq<byte>, xs: seq<Cell>, g: seq<byte>) {
    && Window(c, f) && Window(c, g) && Inside(c, xs)
    && forall a: u32 :: InFlash(c, a) && Fresh(c, xs, a) ==> g[a - Base(c)] == Written(c, f, xs)[a - Base(c)]
  }

  /** Whatever becomes of the open sector, the others are settled. */
  lemma OnlyOpenSettles(c: Chip, f: seq<byte>, xs: seq<Cell>, g: seq<byte>)
    requires Window(c, f) && Inside(c, xs) && OnlyOpen(c, PutAll(c, Store(f, Idle), xs), g)
    ensures Settled(c, f, xs, g)
  {
    hide OpenAt, PutAll, Fresh, Commit, Shown;
    var m := PutAll(c, Store(f, Idle), xs);
    forall a: u32 | InFlash(c, a) && Fresh(c, xs, a) ensures g[a - Base(c)] == Written(c, f, xs)[a - Base(c)] {
      SessionShows(c, f, xs, a);
      CommitShows(c, m, a);
      ShownClosed(c, m, a);
    }
  }

  lemma ShownClosed(c: Chip, m: Store, a: u32)
    requires Sound(c, m) && InFlash(c, a)
    ensures !OpenAt(c, m, a) ==> Shown(c, m, a) == m.flash[a - Base(c)]
  {
  }

  /** If the last byte ends its sector, all is settled. */
  lemma SettledWhole(c: Chip, f: seq<byte>, xs: seq<Cell>, g: seq<byte>)
    requires Settled(c, f, xs, g) && (xs == [] || EndsSector(c, xs))
    ensures g == Written(c, f, xs)
  {
    hide Written;
    var w := Written(c, f, xs);
    forall k | 0 <= k < |g| ensures g[k] == w[k] {
      var a: u32 := Base(c) + k;
      assert Fresh(c, xs, a);
      assert k == a - Base(c);
    }
    assert |g| == |w|;
  }

  /** Before the close the flash is final if and only if the last byte ends its sector, or what is still gathered
      is in the flash already. */
  lemma FinalBeforeClose(c: Chip, f: seq<byte>, xs: seq<Cell>)
    requires Window(c, f) && Inside(c, xs)
    ensures var m := PutAll(c, Store(f, Idle), xs);
            m.flash == Written(c, f, xs)
            <==> xs == [] || EndsSector(c, xs)
                 || forall a: u32 :: InFlash(c, a) && OpenAt(c, m, a) ==> m.flash[a - Base(c)] == Shown(c, m, a)
  {
    hide PutAll, Fresh, Commit, OpenAt, Shown;
    var m := PutAll(c, Store(f, Idle), xs);
    var w := Written(c, f, xs);
    forall a: u32 | InFlash(c, a)
      ensures w[a - Base(c)] == Shown(c, m, a)
      ensures !OpenAt(c, m, a) ==> Shown(c, m, a) == m.flash[a - Base(c)]
      ensures OpenAt(c, m, a) <==> !Fresh(c, xs, a)
    {
      SessionShows(c, f, xs, a);
      CommitShows(c, m, a);
      ShownClosed(c, m, a);
    }
    if xs == [] || EndsSector(c, xs) {
      forall a: u32 | InFlash(c, a) ensures Fresh(c, xs, a) { AllFresh(c, xs, a); }
    }
    if forall a: u32 :: InFlash(c, a) && OpenAt(c, m, a) ==> m.flash[a - Base(c)] == Shown(c, m, a) {
      forall k | 0 <= k < |w| ensures m.flash[k] == w[k] {
        var a: u32 := Base(c) + k;
        assert k == a - Base(c) && w[a - Base(c)] == Shown(c, m, a);
      }
    }
  }

  lemma AllFresh(c: Chip, xs: seq<Cell>, a: u32)
    requires ValidChip(c) && Inside(c, xs) && (xs == [] || EndsSector(c, xs)) && InFlash(c, a)
    ensures Fresh(c, xs, a)
  {
  }

  /** One byte that does not end its sector, and is not there yet: nothing of it is in the flash before the close. */
  lemma ReportedTooEarly(c: Chip, f: seq<byte>, x: Cell)
    requires Window(c, f) && InFlash(c, x.addr) && !LastOfSector(c, x.addr) && f[x.addr - Base(c)] != x.value
    ensures PutAll(c, Store(f, Idle), [x]).flash == f != Written(c, f, [x])
  {
    PutAllOne(c, Store(f, Idle), x);
    GatherCase(c, Store(f, Idle), x.addr);
    WrittenView(c, f, [x], x.addr);
  }
}
