/** The flash-algorithm driver: selects and downloads the algorithm, keeps its Init/UnInit bracket, and
    programs pages in chunks that it reads back. */
module FlashDriver {
  import opened Words
  import opened FlashIface
  import opened DebugTarget
  import Swd

  const VERIFY_BUF: nat := 1024

  // ---- which algorithm serves an address ----

  predicate Covers(r: Region, addr: u32) {
    r.start <= addr <= r.end
  }

  /** The first region that covers the address, else the default region. */
  function RegionFor(regions: seq<Region>, default: Option<Region>, addr: u32): Option<Region> {
    if regions == [] then default
    else if Covers(regions[0], addr) then Some(regions[0])
    else RegionFor(regions[1..], default, addr)
  }

  function AlgoFor(regions: seq<Region>, default: Option<Region>, addr: u32): Option<Algo> {
    match RegionFor(regions, default, addr)
    case None => None
    case Some(r) => r.algo
  }

  /** The first region flagged as the default. */
  function FirstDefault(regions: seq<Region>): Option<Region> {
    if regions == [] then None
    else if regions[0].isDefault then Some(regions[0])
    else FirstDefault(regions[1..])
  }

  predicate FirstCovering(regions: seq<Region>, addr: u32, i: nat) {
    && i < |regions| && regions[i].start <= addr <= regions[i].end
    && forall j :: 0 <= j < i ==> !(regions[j].start <= addr <= regions[j].end)
  }

  /** The region that serves an address is the first one that covers it, and its algorithm, if it has one, serves it. */
  lemma {:induction false} RegionForIs(regions: seq<Region>, default: Option<Region>, addr: u32, i: nat)
    requires FirstCovering(regions, addr, i)
    ensures RegionFor(regions, default, addr) == Some(regions[i])
    ensures AlgoFor(regions, default, addr) == regions[i].algo
    decreases i
  {
    if i > 0 {
      assert regions[1..][i - 1] == regions[i];
      assert forall j :: 0 <= j < i - 1 ==> regions[1..][j] == regions[j + 1];
      RegionForIs(regions[1..], default, addr, i - 1);
    }
  }

  /** An address that no region covers is served by the default region, if there is one. */
  lemma {:induction false} RegionForElse(regions: seq<Region>, default: Option<Region>, addr: u32)
    requires forall i :: 0 <= i < |regions| ==> !(regions[i].start <= addr <= regions[i].end)
    ensures RegionFor(regions, default, addr) == default
    ensures AlgoFor(regions, default, addr) == if default.None? then None else default.value.algo
    decreases |regions|
  {
    if regions != [] { RegionForElse(regions[1..], default, addr); }
  }

  /** The default region is the first one flagged. */
  lemma {:induction false} FirstDefaultIs(regions: seq<Region>, i: nat)
    requires i < |regions| && regions[i].isDefault && forall j :: 0 <= j < i ==> !regions[j].isDefault
    ensures FirstDefault(regions) == Some(regions[i])
    decreases i
  {
    if i > 0 {
      assert regions[1..][i - 1] == regions[i];
      assert forall j :: 0 <= j < i - 1 ==> regions[1..][j] == regions[j + 1];
      FirstDefaultIs(regions[1..], i - 1);
    }
  }

  /** There is none if and only if none is flagged. */
  lemma {:induction false} NoDefaultIff(regions: seq<Region>)
    ensures FirstDefault(regions) == None <==> forall i :: 0 <= i < |regions| ==> !regions[i].isDefault
    decreases |regions|
  {
    if regions != [] {
      NoDefaultIff(regions[1..]);
      assert forall i :: 1 <= i < |regions| ==> regions[i] == regions[1..][i - 1];
    }
  }

  lemma {:induction false} PlacedAlgoFor(c: Chip, regions: seq<Region>, default: Option<Region>, addr: u32)
    requires c.sectors != []
    requires forall r :: r in regions ==> PlacedRegion(c, r)
    requires default.Some? ==> PlacedRegion(c, default.value)
    ensures var a := AlgoFor(regions, default, addr); a.Some? ==> Placed(c, a.value)
  {
    if regions != [] {
      assert PlacedRegion(c, regions[0]);
      if !Covers(regions[0], addr) { PlacedAlgoFor(c, regions[1..], default, addr); }
    }
  }

  /** Every address of the flash has an algorithm. */
  ghost predicate Serves(c: Chip, regions: seq<Region>, default: Option<Region>)
    requires c.sectors != []
  {
    forall a: u32 :: InFlash(c, a) ==> AlgoFor(regions, default, a).Some?
  }

  /** The default region after flash_init: one that is left over from an earlier configuration stays if the new
      one flags none. */
  function DefaultAfter(regions: seq<Region>, left: Option<Region>): Option<Region> {
    if FirstDefault(regions).Some? then FirstDefault(regions) else left
  }

  predicate Covered(regions: seq<Region>, addr: u32) {
    exists i :: 0 <= i < |regions| && Covers(regions[i], addr)
  }

  /** Covered addresses do not depend on the default region; the others get its algorithm. */
  lemma {:induction false} DefaultServes(regions: seq<Region>, default: Option<Region>, addr: u32)
    ensures Covered(regions, addr) ==> AlgoFor(regions, default, addr) == AlgoFor(regions, None, addr)
    ensures !Covered(regions, addr) ==>
              AlgoFor(regions, default, addr) == (if default.Some? then default.value.algo else None)
  {
    if regions != [] && !Covers(regions[0], addr) {
      DefaultServes(regions[1..], default, addr);
      DefaultServes(regions[1..], None, addr);
      assert Covered(regions, addr) <==> Covered(regions[1..], addr) by {
        if i :| 0 <= i < |regions| && Covers(regions[i], addr) { assert Covers(regions[1..][i - 1], addr); }
        if i :| 0 <= i < |regions[1..]| && Covers(regions[1..][i], addr) { assert Covers(regions[i + 1], addr); }
      }
    } else if regions != [] {
      assert Covers(regions[0], addr);
    }
  }

  /** A configuration that serves every address without a default does so with any. */
  lemma ServesAnyDefault(c: Chip, regions: seq<Region>, default: Option<Region>)
    requires c.sectors != [] && Serves(c, regions, None)
    ensures Serves(c, regions, default)
  {
    forall a: u32 | InFlash(c, a) ensures AlgoFor(regions, default, a).Some? {
      DefaultServes(regions, default, a);
      DefaultServes(regions, None, a);
    }
  }

  /** A left-over default region never matters if and only if the new configuration flags a default, or there is
      none left over, or it has no algorithm, or every address is covered by a region. */
  lemma LeftOverDefault(regions: seq<Region>, left: Option<Region>)
    ensures (forall a: u32 ::
               AlgoFor(regions, DefaultAfter(regions, left), a) == AlgoFor(regions, FirstDefault(regions), a))
            <==> FirstDefault(regions).Some? || left.None? || left.value.algo.None?
                 || (forall a: u32 :: Covered(regions, a))
  {
    if FirstDefault(regions).None? && left.Some? {
      forall a: u32
        ensures AlgoFor(regions, left, a) == AlgoFor(regions, None, a) <==> left.value.algo.None? || Covered(regions, a)
      {
        DefaultServes(regions, left, a);
        DefaultServes(regions, None, a);
      }
    }
  }

  /** A configuration without a default: an address outside its one region is served by the algorithm of the
      configuration before it, not refused. */
  lemma OldDefaultServes(before: Region, now: Region)
    requires before.algo.Some? && now.start == 0 && now.end == 0xFFF && !now.isDefault
    ensures AlgoFor([now], DefaultAfter([now], Some(before)), 0x1000) == before.algo
    ensures AlgoFor([now], FirstDefault([now]), 0x1000) == None
  {
    assert [now][1..] == [] && FirstDefault([now]) == None;
    assert !Covered([now], 0x1000);
    DefaultServes([now], Some(before), 0x1000);
    DefaultServes([now], None, 0x1000);
  }

  // ---- what an algorithm's RAM use leaves alone ----

  /** Bytes written to an algorithm's page buffer touch neither the flash nor the blob. */
  lemma StagingHarmless(c: Chip, a: Algo, mem: seq<byte>, data: seq<byte>)
    requires ValidChip(c) && Placed(c, a) && |mem| == ADDRESS_SPACE && |data| <= a.programBufferSize
    ensures Base(c) < c.limit
    ensures forall m :: SameAround(mem, m, a.programBuffer, |data|) ==>
              m[Base(c)..c.limit] == mem[Base(c)..c.limit] && (Resident(mem, a) ==> Resident(m, a))
  {
    BaseBelowLimit(c);
    forall m | SameAround(mem, m, a.programBuffer, |data|)
      ensures m[Base(c)..c.limit] == mem[Base(c)..c.limit] && (Resident(mem, a) ==> Resident(m, a))
    {
      SameAroundElsewhere(mem, m, a.programBuffer, |data|, Base(c), c.limit);
      SameAroundElsewhere(mem, m, a.programBuffer, |data|, a.algoStart, a.algoStart + |a.blob|);
    }
  }

  /** Downloading an algorithm does not touch the flash. */
  lemma DownloadHarmless(c: Chip, a: Algo, mem: seq<byte>, m: seq<byte>)
    requires ValidChip(c) && Placed(c, a) && |mem| == ADDRESS_SPACE
    requires SameAround(mem, m, a.algoStart, |a.blob|)
    ensures Base(c) < c.limit && m[Base(c)..c.limit] == mem[Base(c)..c.limit]
  {
    BaseBelowLimit(c);
    SameAroundElsewhere(mem, m, a.algoStart, |a.blob|, Base(c), c.limit);
  }

  /** The part of the flash a routine may change. */
  function Reach(c: Chip, r: Routine, addr: u32, size: u32): nat {
    if r.EraseSector? then SizeAt(c, addr) else if r.ProgramPage? then size else 0
  }

  predicate InReach(c: Chip, r: Routine, addr: u32, size: u32)
    requires c.sectors != []
  {
    Reach(c, r, addr, size) > 0 ==> Base(c) <= addr && addr + Reach(c, r, addr, size) <= c.limit
  }

  /** From flash content `f` to `g`: nothing outside the routine's reach has changed. */
  predicate Confined(c: Chip, r: Routine, addr: u32, size: u32, f: seq<byte>, g: seq<byte>)
    requires c.sectors != [] && InReach(c, r, addr, size)
  {
    if Reach(c, r, addr, size) == 0 then g == f
    else SameAround(f, g, addr - Base(c), Reach(c, r, addr, size))
  }

  /** The bytes a routine may change leave the blob, the page buffer and the rest of the flash alone. */
  lemma RoutineFrame(c: Chip, a: Algo, r: Routine, addr: u32, size: u32, mem: seq<byte>, m: seq<byte>)
    requires ValidChip(c) && Placed(c, a) && |mem| == ADDRESS_SPACE == |m|
    requires InReach(c, r, addr, size)
    requires forall i :: 0 <= i < ADDRESS_SPACE && !MayTouch(c, a, r, addr, size, i) ==> m[i] == mem[i]
    ensures Resident(mem, a) ==> Resident(m, a)
    ensures m[a.programBuffer..a.programBuffer + a.programBufferSize] ==
            mem[a.programBuffer..a.programBuffer + a.programBufferSize]
    ensures Base(c) < c.limit && Confined(c, r, addr, size, mem[Base(c)..c.limit], m[Base(c)..c.limit])
  {
    BaseBelowLimit(c);
    var lo, n := Base(c), Reach(c, r, addr, size);
    var f, g := mem[lo..c.limit], m[lo..c.limit];
    forall i | 0 <= i < |f| && !(addr - lo <= i < addr - lo + n) ensures g[i] == f[i] {
      assert !MayTouch(c, a, r, addr, size, lo + i);
    }
    forall i | a.algoStart <= i < a.algoStart + |a.blob| ensures m[i] == mem[i] {
      assert !MayTouch(c, a, r, addr, size, i);
    }
    forall i | a.programBuffer <= i < a.programBuffer + a.programBufferSize ensures m[i] == mem[i] {
      assert !MayTouch(c, a, r, addr, size, i);
    }
    assert m[a.algoStart..a.algoStart + |a.blob|] == mem[a.algoStart..a.algoStart + |a.blob|];
  }

  // ---- how target memory is read back ----

  /** A range is read in pieces of 1024 bytes. */
  function ReadPlan(addr: nat, size: nat): seq<Swd.Access>
    decreases size
  {
    if size <= 1024 then Swd.Plan(addr, size)
    else Swd.Plan(addr, 1024) + ReadPlan(addr + 1024, size - 1024)
  }

  /** The next piece of a range that has been read up to `k`. */
  lemma NextRead(addr: nat, size: nat, k: nat, n: nat, before: seq<Swd.Access>, now: seq<Swd.Access>)
    requires k < size && n == if size - k <= 1024 then size - k else 1024
    requires now + ReadPlan(addr + k, size - k) == before
    ensures now + Swd.Plan(addr + k, n) + ReadPlan(addr + k + n, size - k - n) == before
    ensures now + Swd.Plan(addr + k, n) <= before
  {
    var p, rest := Swd.Plan(addr + k, n), ReadPlan(addr + k + n, size - k - n);
    assert ReadPlan(addr + k, size - k) == p + rest;
    assert now + (p + rest) == now + p + rest;
  }

  lemma AllRead(addr: nat, now: seq<Swd.Access>)
    ensures now + ReadPlan(addr, 0) == now
  {
    assert now + [] == now;
  }

  // ---- which routines are run ----

  /** The number by which Init and UnInit are told what they are for. */
  function Code(f: Func): u32 {
    match f
    case Nop => 0
    case Erase => 1
    case Program => 2
    case Verify => 3
  }

  /** A call of a routine of an algorithm. */
  datatype Use = Use(routine: Routine, addr: nat, size: nat, buffer: nat)

  /** The calls that program `size` bytes at `addr`: one page buffer after the other, the last one as long as what
      is left, each verified before the next if the algorithm can do that. */
  function PageUses(a: Algo, addr: nat, size: nat): (s: seq<Use>)
    requires a.programBufferSize > 0
  {
    var b, each := a.programBufferSize as nat, if a.hasVerify then 2 else 1;
    seq(each * ((size + b - 1) / b), i requires 0 <= i =>
      var k := i / each * b;
      Use(if a.hasVerify && i % 2 == 1 then Routine.Verify else Routine.ProgramPage, addr + k,
          if size >= k + b then b else if size > k then size - k else 0, a.programBuffer))
  }

  /** The calls for one page. */
  function PageUse(a: Algo, addr: nat, size: nat): seq<Use> {
    [Use(Routine.ProgramPage, addr, size, a.programBuffer)]
    + if a.hasVerify then [Use(Routine.Verify, addr, size, a.programBuffer)] else []
  }

  /** From `before` to `after` the log has grown by calls of `a` that begin as `uses` does; all but the last of them
      succeeded. */
  ghost predicate Ran(a: Algo, before: seq<Event>, after: seq<Event>, uses: seq<Use>) {
    && before <= after && |after| - |before| <= |uses|
    && forall i :: |before| <= i < |after| ==>
         && after[i].Call? && after[i].algo == a
         && Use(after[i].routine, after[i].addr, after[i].size, after[i].buffer) == uses[i - |before|]
         && (i + 1 < |after| ==> after[i].ok)
  }

  /** It has grown by just these calls, and all of them succeeded. */
  ghost predicate RanAll(a: Algo, before: seq<Event>, after: seq<Event>, uses: seq<Use>) {
    && Ran(a, before, after, uses) && |after| - |before| == |uses|
    && (uses != [] ==> after[|after| - 1].ok)
  }

  /** The error that a failed call of a routine is reported as. */
  function Blame(r: Routine): Err {
    match r
    case Init => Err.INIT
    case UnInit => UNINIT
    case EraseSector => ERASE_SECTOR
    case ProgramPage => WRITE
    case Verify => WRITE_VERIFY
  }

  /** If the last thing that was logged since is a failure, it is the one that is reported. */
  ghost predicate Blamed(before: seq<Event>, after: seq<Event>, err: Err) {
    |after| > |before| ==>
      var e := after[|after| - 1];
      && (e.Call? && !e.ok ==> err == Blame(e.routine))
      && (e.Download? && !e.ok ==> err.ALGO_DL?)
  }

  lemma BlamedLater(a: Algo, l0: seq<Event>, l1: seq<Event>, l2: seq<Event>, u: seq<Use>, err: Err)
    requires RanAll(a, l0, l1, u) && l1 <= l2 && Blamed(l1, l2, err)
    ensures Blamed(l0, l2, err)
  {
  }

  /** The last thing that was logged is the release of the target, or an UnInit that failed. */
  predicate HandedBack(log: seq<Event>) {
    && log != []
    && var e := log[|log| - 1]; e.Run? || (e.Call? && e.routine.UnInit? && !e.ok)
  }

  lemma RanNone(a: Algo, log: seq<Event>, uses: seq<Use>)
    ensures Ran(a, log, log, uses) && RanAll(a, log, log, [])
  {
  }

  lemma RanOne(a: Algo, before: seq<Event>, e: Event)
    requires e.Call? && e.algo == a
    ensures Ran(a, before, before + [e], [Use(e.routine, e.addr, e.size, e.buffer)])
    ensures e.ok ==> RanAll(a, before, before + [e], [Use(e.routine, e.addr, e.size, e.buffer)])
  {
  }

  lemma RanThen(a: Algo, l0: seq<Event>, l1: seq<Event>, l2: seq<Event>, u: seq<Use>, w: seq<Use>)
    requires RanAll(a, l0, l1, u) && Ran(a, l1, l2, w)
    ensures Ran(a, l0, l2, u + w)
    ensures RanAll(a, l1, l2, w) ==> RanAll(a, l0, l2, u + w)
  {
  }

  /** A sector that is erased and then programmed. */
  lemma RanErased(a: Algo, l0: seq<Event>, l1: seq<Event>, l2: seq<Event>, u: seq<Use>, e: seq<Use>, pages: seq<Use>)
    requires RanAll(a, l0, l1, u + e) && Ran(a, l1, l2, [] + pages)
    ensures Ran(a, l0, l2, u + (e + pages))
    ensures RanAll(a, l1, l2, [] + pages) ==> RanAll(a, l0, l2, u + (e + pages))
  {
    hide Ran, RanAll;
    RanThen(a, l0, l1, l2, u + e, [] + pages);
    assert u + e + ([] + pages) == u + (e + pages);
  }

  lemma RanPrefix(a: Algo, before: seq<Event>, after: seq<Event>, u: seq<Use>, w: seq<Use>)
    requires Ran(a, before, after, u) && u <= w
    ensures Ran(a, before, after, w)
  {
  }

  lemma Scaled(x: nat, y: nat, b: nat)
    ensures x <= y ==> x * b <= y * b
  {
    if x <= y { assert y * b == x * b + (y - x) * b; }
  }

  lemma CountPages(size: nat, b: nat, j: nat)
    requires b > 0 && j * b < size
    ensures j < (size + b - 1) / b
    ensures if size <= j * b + b then (size + b - 1) / b == j + 1 else (j + 1) * b < size
  {
    var q := (size + b - 1) / b;
    assert q * b <= size + b - 1 < q * b + b;
    assert (j + 1) * b == j * b + b;
    Scaled(q, j, b);
    Scaled(j + 2, q, b);
    assert (j + 2) * b == j * b + 2 * b;
  }

  /** The calls for the page that begins after `k` bytes come next. */
  lemma NextPage(a: Algo, addr: nat, size: nat, j: nat, k: nat, n: nat)
    requires a.programBufferSize > 0 && k == j * a.programBufferSize < size
    requires n == if size - k <= a.programBufferSize then size - k else a.programBufferSize
    ensures var u, each := PageUses(a, addr, size), if a.hasVerify then 2 else 1;
            && each * j + each <= |u|
            && u[..each * (j + 1)] == u[..each * j] + PageUse(a, addr + k, n)
            && (if k + n == size then each * (j + 1) == |u| else k + n == (j + 1) * a.programBufferSize)
  {
    var b := a.programBufferSize as nat;
    CountPages(size, b, j);
    assert (j + 1) * b == j * b + b;
    var u, each := PageUses(a, addr, size), if a.hasVerify then 2 else 1;
    assert each * j / each == j;
    assert a.hasVerify ==> (each * j + 1) / each == j && (each * j + 1) % 2 == 1 && each * j % 2 == 0;
    assert u[each * j] == Use(Routine.ProgramPage, addr + k, n, a.programBuffer);
    if a.hasVerify { assert u[each * j + 1] == Use(Routine.Verify, addr + k, n, a.programBuffer); }
  }

  /** `size` bytes are being programmed, and `k` of them are done: that is `j` pages. */
  ghost predicate Paged(a: Algo, addr: nat, size: nat, before: seq<Event>, log: seq<Event>, j: nat, k: nat)
    requires a.programBufferSize > 0
  {
    var u, each := PageUses(a, addr, size), if a.hasVerify then 2 else 1;
    && each * j <= |u| && RanAll(a, before, log, u[..each * j])
    && (if k < size then k == j * a.programBufferSize else each * j == |u|)
  }

  lemma NoPages(a: Algo, addr: nat, size: nat, log: seq<Event>)
    requires a.programBufferSize > 0
    ensures Paged(a, addr, size, log, log, 0, 0)
  {
    var b := a.programBufferSize as nat;
    assert size == 0 ==> (size + b - 1) / b == 0;
    RanNone(a, log, []);
  }

  lemma AllPages(a: Algo, addr: nat, size: nat, before: seq<Event>, log: seq<Event>, j: nat)
    requires a.programBufferSize > 0 && Paged(a, addr, size, before, log, j, size)
    ensures RanAll(a, before, log, PageUses(a, addr, size)) && Ran(a, before, log, PageUses(a, addr, size))
  {
    hide PageUses;
    var u, each := PageUses(a, addr, size), if a.hasVerify then 2 else 1;
    assert u[..each * j] == u;
  }

  lemma BlamedPage(a: Algo, addr: nat, size: nat, l0: seq<Event>, l1: seq<Event>, l2: seq<Event>, j: nat, k: nat,
                   err: Err)
    requires a.programBufferSize > 0 && Paged(a, addr, size, l0, l1, j, k) && l1 <= l2 && Blamed(l1, l2, err)
    ensures Blamed(l0, l2, err)
  {
    hide PageUses;
  }

  lemma PageDone(a: Algo, addr: nat, size: nat, l0: seq<Event>, l1: seq<Event>, l2: seq<Event>, j: nat, k: nat, n: nat)
    requires a.programBufferSize > 0 && k < size && Paged(a, addr, size, l0, l1, j, k)
    requires n == if size - k <= a.programBufferSize then size - k else a.programBufferSize
    requires Ran(a, l1, l2, PageUse(a, addr + k, n))
    ensures Ran(a, l0, l2, PageUses(a, addr, size))
    ensures RanAll(a, l1, l2, PageUse(a, addr + k, n)) ==> Paged(a, addr, size, l0, l2, j + 1, k + n)
  {
    hide PageUses, PageUse, Ran, RanAll;
    NextPage(a, addr, size, j, k, n);
    var u, each := PageUses(a, addr, size), if a.hasVerify then 2 else 1;
    RanThen(a, l0, l1, l2, u[..each * j], PageUse(a, addr + k, n));
    RanPrefix(a, l0, l2, u[..each * (j + 1)], u);
  }

  class TargetFlash {
    const swd: Swd.SwdIface
    const verifyBuf: array<byte>
    var cfg: Option<Config>
    var lastFunc: Func
    var current: Option<Algo>
    var state: FlashState
    var startAddr: u32
    var defaultRegion: Option<Region>

    ghost function T(): Target {
      swd.target
    }

    ghost function Chip(): FlashIface.Chip {
      swd.target.chip
    }

    /** Holds in every state, also after failures. */
    ghost predicate Valid()
      reads this, swd, T()
    {
      && swd.Valid() && T().Valid() && verifyBuf.Length == VERIFY_BUF
      && T().phase.lawful
      && (cfg.Some? ==> Describes(cfg.value, Chip()))
      && (defaultRegion.Some? ==> PlacedRegion(Chip(), defaultRegion.value))
      && (current.Some? ==> Placed(Chip(), current.value))
      && (lastFunc.Nop? ==> !T().phase.open)
      && (!lastFunc.Nop? ==>
            current.Some? && state.Open? && T().phase.algo == current && Resident(T().mem, current.value))
    }

    /** Holds from a successful flash_init on until something fails: the algorithm in RAM is the selected
        one and intact, and the function that is believed to be open is open. */
    ghost predicate Ready()
      reads this, swd, T()
    {
      && Valid() && cfg.Some? && state.Open? && !swd.stale && !T().dap.posted
      && !T().phase.failed && T().phase.algo == current
      && (T().phase.open <==> !lastFunc.Nop?) && !T().phase.stuck
      && (current.Some? ==> Resident(T().mem, current.value))
    }

    /** The configuration in force has an algorithm for every address of the flash. */
    ghost predicate Served()
      requires ValidChip(Chip())
      reads `cfg, `defaultRegion
    {
      cfg.Some? && Serves(Chip(), cfg.value.regions, defaultRegion)
    }

    /** The algorithm of the region that serves `addr` is selected, and would be initialised for that region. */
    ghost predicate Selected(addr: u32)
      reads this
    {
      && cfg.Some?
      && var r := RegionFor(cfg.value.regions, defaultRegion, addr);
         r.Some? && current.Some? && current == r.value.algo && startAddr == r.value.start
    }

    constructor (swd: Swd.SwdIface)
      requires swd.Valid() && swd.target.Valid() && swd.target.phase == START
      ensures Valid() && this.swd == swd && fresh(verifyBuf) && cfg.None? && current.None? && lastFunc.Nop?
    {
      this.swd := swd;
      verifyBuf := new byte[VERIFY_BUF];
      cfg, lastFunc, current, state := None, Nop, None, Closed;
      startAddr, defaultRegion := 0, None;
    }

    /** The event of a call that finds the blob intact. */
    ghost function Called(a: Algo, r: Routine, addr: u32, size: u32, buffer: u32, ok: bool, posted: bool,
                          mem: seq<byte>): Event
    {
      Call(a, r, addr, size, buffer, ok, true, !posted, Blank(mem, addr, size))
    }

    /** Runs a routine of the selected algorithm. */
    method Exec(a: Algo, r: Routine, addr: u32, size: u32, buffer: u32) returns (ok: bool)
      requires swd.Valid() && T().Valid() && Placed(Chip(), a) && Resident(T().mem, a)
      requires InReach(Chip(), r, addr, size)
      modifies swd, T()
      ensures swd.Valid() && T().Valid() && (old(T().noisy) ==> T().noisy) && old(T().log) <= T().log
      ensures (old(swd.stale) ==> swd.stale) && (ok ==> swd.stale == old(swd.stale))
      ensures Resident(T().mem, a)
      ensures var p := a.programBuffer;
              T().mem[p..p + a.programBufferSize] == old(T().mem)[p..p + a.programBufferSize]
      ensures Confined(Chip(), r, addr, size, old(T().Flash()), T().Flash())
      ensures T().phase ==
              Next(Chip(), old(T().phase), Called(a, r, addr, size, buffer, ok, old(T().dap.posted), old(T().mem)))
      ensures T().log == old(T().log) + [Called(a, r, addr, size, buffer, ok, old(T().dap.posted), old(T().mem))]
      ensures T().dap.posted == old(T().dap.posted)
      ensures ok && !T().noisy && r.EraseSector? && T().erases ==> Blank(T().mem, addr, SizeAt(Chip(), addr))
      ensures ok && !T().noisy && r.Verify? && addr + size <= ADDRESS_SPACE && buffer + size <= ADDRESS_SPACE ==>
                T().mem[addr..addr + size] == T().mem[buffer..buffer + size]
      ensures T().reliable ==> T().noisy == old(T().noisy) && (!r.Verify? ==> ok)
      ensures T().reliable && addr + size <= ADDRESS_SPACE && buffer + size <= ADDRESS_SPACE ==>
                && (r.ProgramPage? && Blank(old(T().mem), addr, size) ==>
                      T().mem[addr..addr + size] == old(T().mem)[buffer..buffer + size])
                && (r.Verify? && old(T().mem)[addr..addr + size] == old(T().mem)[buffer..buffer + size] ==> ok)
    {
      ghost var m := T().mem;
      ok := swd.FlashSyscallExec(a, r, addr, size, buffer);
      RoutineFrame(Chip(), a, r, addr, size, m, T().mem);
    }

    /** UnInit of the selected algorithm, or Init of it for the region that was looked up last. */
    ghost predicate OpensOrCloses(e: Event, f: Func, ok: bool)
      reads this
    {
      && e.Call? && current == Some(e.algo) && e.ok == ok
      && (if f.Nop? then e.routine.UnInit? else e.routine.Init? && e.addr == startAddr && e.size == 0)
    }

    /** What has to be called before a function can be used: Init for it, unless one is open. */
    ghost function Opening(f: Func): seq<Use>
      reads this
    {
      if lastFunc.Nop? then [Use(Routine.Init, startAddr, 0, Code(f))] else []
    }

    /** Closes the open function, or opens one; switching between open functions runs nothing. */
    method FuncStart(f: Func) returns (err: Err)
      requires Valid()
      requires !f.Nop? ==> Ready() && current.Some?
      modifies `lastFunc, swd, T()
      ensures Valid() && (old(T().noisy) ==> T().noisy) && old(T().log) <= T().log
      ensures err.NONE? ==> lastFunc == f && (old(Ready()) ==> Ready())
      ensures !err.NONE? ==> lastFunc == old(lastFunc)
      ensures old(lastFunc) == f ==> err.NONE?
      ensures err == NONE || err == if f.Nop? then UNINIT else Err.INIT
      ensures T().Flash() == old(T().Flash())
      ensures T().phase.failed == old(T().phase.failed)
      ensures T().phase.releases == old(T().phase.releases) && T().phase.blank == old(T().phase.blank)
      ensures old(lastFunc.Nop?) == f.Nop? ==> err.NONE? && T().log == old(T().log)
      ensures old(lastFunc.Nop?) != f.Nop? ==>
                && |T().log| == |old(T().log)| + 1 && old(T().log) <= T().log
                && OpensOrCloses(T().log[|old(T().log)|], f, err.NONE?)
                && (f.Nop? ==> T().log[|old(T().log)|].addr == Code(old(lastFunc)))
      ensures (lastFunc.Nop? <==> old(lastFunc.Nop?)) && (old(lastFunc.Nop?) <==> f.Nop?) ==>
                T().phase == old(T().phase) && T().mem == old(T().mem) && swd.stale == old(swd.stale)
      ensures T().reliable ==> T().noisy == old(T().noisy) && err.NONE?
      ensures !f.Nop? ==> Ran(current.value, old(T().log), T().log, old(Opening(f)))
      ensures !f.Nop? && err.NONE? ==> RanAll(current.value, old(T().log), T().log, old(Opening(f)))
      ensures Blamed(old(T().log), T().log, err)
    {
      hide Placed, Resident, Describes, ValidChip;
      err := NONE;
      if !f.Nop? { RanNone(current.value, T().log, Opening(f)); }
      if lastFunc != f {
        if !lastFunc.Nop? && f.Nop? {
          var ok := Exec(current.value, UnInit, Code(lastFunc), 0, 0);
          if !ok { return UNINIT; }
        }
        if !f.Nop? && lastFunc.Nop? {
          ghost var before := T().log;
          var ok := Exec(current.value, DebugTarget.Init, startAddr, 0, Code(f));
          RanOne(current.value, before, T().log[|before|]);
          if !ok { return Err.INIT; }
        }
        lastFunc := f;
      }
    }

    /** The size of the sector at `addr`: scans the table from its end. */
    method EraseSectorSize(addr: u32) returns (size: u32)
      ensures size == if cfg.Some? then SectorSize(cfg.value.sectors, addr) else 0
    {
      if cfg.None? { return 0; }
      var table := cfg.value.sectors;
      var i := |table|;
      assert table[..i] == table;
      while i > 0
        invariant 0 <= i <= |table|
        invariant SectorSize(table[..i], addr) == SectorSize(table, addr)
      {
        assert table[..i][..i - 1] == table[..i - 1];
        if addr >= table[i - 1].start { return table[i - 1].size; }
        i := i - 1;
      }
      return 0;
    }

    /** The smaller of 256 and the sector size. */
    method ProgramPageMinSize(addr: u32) returns (size: u32)
      ensures var z := if cfg.Some? then SectorSize(cfg.value.sectors, addr) else 0;
              size <= z && size <= 256 && (size == z || size == 256)
    {
      if cfg.None? { return 0; }
      var eraseSize := EraseSectorSize(addr);
      size := if 256 <= eraseSize then 256 else eraseSize;
    }

    /** Finds the algorithm for `addr` and notes where its region starts. */
    method GetFlashAlgo(addr: u32) returns (algo: Option<Algo>)
      requires cfg.Some?
      modifies `startAddr
      ensures algo == AlgoFor(cfg.value.regions, defaultRegion, addr)
      ensures var r := RegionFor(cfg.value.regions, defaultRegion, addr);
              startAddr == if r.Some? then r.value.start else old(startAddr)
    {
      var regions := cfg.value.regions;
      var i := 0;
      while i < |regions|
        invariant i <= |regions| && startAddr == old(startAddr)
        invariant RegionFor(regions[i..], defaultRegion, addr) == RegionFor(regions, defaultRegion, addr)
      {
        assert regions[i..][1..] == regions[i + 1..];
        if Covers(regions[i], addr) {
          startAddr := regions[i].start;
          return regions[i].algo;
        }
        i := i + 1;
      }
      if defaultRegion.Some? {
        startAddr := defaultRegion.value.start;
        return defaultRegion.value.algo;
      }
      return None;
    }

    /** Selects the algorithm for `addr`. Another algorithm is downloaded, with no function open. */
    method AlgoSet(addr: u32) returns (err: Err)
      requires Ready()
      modifies `startAddr, `lastFunc, `current, swd, T()
      ensures Valid() && (old(T().noisy) ==> T().noisy) && old(T().log) <= T().log
      ensures err.NONE? ==> Ready() && current.Some? && Selected(addr)
      ensures err in {NONE, ALGO_MISSING, UNINIT, ALGO_DL}
      ensures T().Flash() == old(T().Flash())
      ensures T().phase.failed == old(T().phase.failed)
      ensures T().phase.releases == old(T().phase.releases) && T().phase.blank == old(T().phase.blank)
      ensures old(lastFunc.Nop?) ==> lastFunc.Nop? && T().phase.calls == old(T().phase.calls)
      ensures old(current.Some? && current == AlgoFor(cfg.value.regions, defaultRegion, addr)) ==>
                err.NONE? && T().log == old(T().log)
      ensures err.NONE? && current != old(current) ==>
                && |T().log| == |old(T().log)| + (if old(lastFunc.Nop?) then 1 else 2)
                && T().log[|T().log| - 1] == Download(current.value, true)
      ensures var r := old(RegionFor(cfg.value.regions, defaultRegion, addr));
              startAddr == if r.Some? then r.value.start else old(startAddr)
      ensures T().reliable ==> T().noisy == old(T().noisy)
      ensures T().reliable && old(AlgoFor(cfg.value.regions, defaultRegion, addr)).Some? ==> err.NONE?
      ensures Blamed(old(T().log), T().log, err)
      ensures err.ALGO_MISSING? <==> old(AlgoFor(cfg.value.regions, defaultRegion, addr)) == None
      ensures err.ALGO_MISSING? ==> T().log == old(T().log)
    {
      hide Resident;
      var next := GetFlashAlgo(addr);
      if next.None? { return ALGO_MISSING; }
      PlacedAlgoFor(Chip(), cfg.value.regions, defaultRegion, addr);
      if current != next {
        err := FuncStart(Nop);
        if !err.NONE? { return; }
        var ok := DownloadAlgo(next.value);
        if !ok { return ALGO_DL; }
      }
      return NONE;
    }

    /** Puts the algorithm into RAM and selects it. */
    method DownloadAlgo(a: Algo) returns (ok: bool)
      requires Ready() && lastFunc.Nop? && Placed(Chip(), a)
      modifies `current, swd, T()
      ensures Valid() && (old(T().noisy) ==> T().noisy) && old(T().log) <= T().log
      ensures ok ==> Ready() && current == Some(a)
      ensures !ok ==> current == old(current)
      ensures T().Flash() == old(T().Flash())
      ensures T().phase == Next(Chip(), old(T().phase), Download(a, ok)) && T().log == old(T().log) + [Download(a, ok)]
      ensures T().reliable ==> T().noisy == old(T().noisy) && ok
    {
      ghost var mem := T().mem;
      ok := swd.WriteMemory(a.algoStart, a.blob);
      DownloadHarmless(Chip(), a, mem, T().mem);
      if ok {
        OverlaySlice(mem, a.algoStart, a.blob);
        current := Some(a);
      }
      T().Record(Download(a, ok));
    }

    method FlashInit(config: Config) returns (err: Err)
      requires Valid() && Describes(config, Chip())
      modifies `cfg, `lastFunc, `current, `state, `defaultRegion, swd, T()
      ensures Valid() && (old(T().noisy) ==> T().noisy) && old(T().log) <= T().log
      ensures err.NONE? ==> Ready() && cfg == Some(config) && current.None? && lastFunc.Nop?
      ensures err in {NONE, RESET}
      ensures err.NONE? ==> defaultRegion == DefaultAfter(config.regions, old(defaultRegion))
      ensures err.NONE? && Serves(Chip(), config.regions, FirstDefault(config.regions)) ==> Served()
      ensures T().log == old(T().log) + [Reset]
      ensures T().Flash() == old(T().Flash())
      ensures T().phase.calls == old(T().phase.calls) && T().phase.blank == old(T().phase.blank)
      ensures T().reliable ==> T().noisy == old(T().noisy) && err.NONE?
      ensures !err.NONE? ==> state == old(state) && defaultRegion == old(defaultRegion)
    {
      hide Placed, Serves;
      cfg, lastFunc, current := Some(config), Nop, None;
      var ok := swd.SetTargetState(false);
      if !ok { return RESET; }
      var i := 0;
      while i < |config.regions|
        invariant i <= |config.regions| && defaultRegion == old(defaultRegion)
        invariant FirstDefault(config.regions[i..]) == FirstDefault(config.regions)
      {
        assert config.regions[i..][1..] == config.regions[i + 1..];
        if config.regions[i].isDefault {
          defaultRegion := Some(config.regions[i]);
          break;
        }
        i := i + 1;
      }
      state := Open;
      if FirstDefault(config.regions).None? && Serves(Chip(), config.regions, None) {
        ServesAnyDefault(Chip(), config.regions, defaultRegion);
      }
      return NONE;
    }

    method FlashUninit() returns (err: Err)
      requires Valid()
      modifies `lastFunc, `state, swd, T()
      ensures Valid() && (old(T().noisy) ==> T().noisy) && old(T().log) <= T().log
      ensures err.UNINIT? ==>
                && !lastFunc.Nop? && |T().log| == |old(T().log)| + 1 && old(T().log) <= T().log
                && OpensOrCloses(T().log[|old(T().log)|], Nop, false) && T().phase.releases == old(T().phase.releases)
      ensures err.NONE? ==>
                && lastFunc.Nop? && state.Closed?
                && |T().log| == |old(T().log)| + (if old(lastFunc.Nop?) then 1 else 2)
                && T().log[|T().log| - 1] == Run
      ensures err in {NONE, UNINIT, FAILURE} && (err.FAILURE? ==> cfg.None?)
      ensures T().Flash() == old(T().Flash())
      ensures T().phase.failed == old(T().phase.failed) && T().phase.blank == old(T().phase.blank)
      ensures old(lastFunc.Nop?) ==> lastFunc.Nop? && T().phase.calls == old(T().phase.calls)
      ensures T().reliable ==> T().noisy == old(T().noisy) && (cfg.Some? ==> err.NONE?)
      ensures !err.FAILURE? ==> HandedBack(T().log)
      ensures !err.NONE? ==> state == old(state)
    {
      if cfg.None? { return FAILURE; }
      err := FuncStart(Nop);
      if !err.NONE? { return; }
      var ok := swd.SetTargetState(true);
      state := Closed;
    }

    /** Erases the sector that starts at `addr`. */
    method EraseSector(addr: u32) returns (err: Err)
      requires Valid() && InFlash(Chip(), addr) && (cfg.Some? && current.Some? ==> Ready())
      modifies `lastFunc, swd, T()
      ensures Valid() && (old(T().noisy) ==> T().noisy) && old(T().log) <= T().log
      ensures err.NONE? ==> Ready() && SizeAt(Chip(), addr) > 0 && SectorOf(Chip(), addr) == addr
      ensures T().phase.failed == old(T().phase.failed)
      ensures T().phase.releases == old(T().phase.releases) && T().phase.blank == old(T().phase.blank)
      ensures SizeAt(Chip(), addr) > 0 && Base(Chip()) <= SectorOf(Chip(), addr)
      ensures SameAround(old(T().Flash()), T().Flash(), SectorOf(Chip(), addr) - Base(Chip()), SizeAt(Chip(), addr))
      ensures err.NONE? && T().erases && !T().noisy ==> Blank(T().mem, addr, SizeAt(Chip(), addr))
      ensures T().reliable ==> T().noisy == old(T().noisy)
      ensures T().reliable && old(Ready() && current.Some?) && SectorOf(Chip(), addr) == addr ==> err.NONE?
      ensures !err.UNINIT?
      ensures old(cfg.Some? && current.Some?) ==>
                var a, u := current.value, old(Opening(Erase)) + [Use(Routine.EraseSector, addr, 0, 0)];
                Ran(a, old(T().log), T().log, u) && (err.NONE? ==> RanAll(a, old(T().log), T().log, u))
      ensures SectorOf(Chip(), addr) != addr ==> T().log == old(T().log)
      ensures err.NONE? ==> lastFunc == Erase
      ensures Blamed(old(T().log), T().log, err)
      ensures old(cfg).None? ==> err.FAILURE?
      ensures old(cfg).Some? && old(current).None? ==> err.INTERNAL?
      ensures old(cfg.Some? && current.Some?) ==> err in {NONE, ERASE_SECTOR, Err.INIT}
    {
      hide Scan, Blank, Sorted, Aligned, Ran, RanAll;
      hide Placed, Resident, Opening;
      SectorGeometry(Chip(), addr);
      if cfg.None? { return FAILURE; }
      if current.None? { return INTERNAL; }
      var size := EraseSectorSize(addr);
      ghost var a, l0, u, w := current.value, T().log, Opening(Erase), [Use(Routine.EraseSector, addr, 0, 0)];
      RanNone(a, l0, u + w);
      if addr % size != 0 { return ERASE_SECTOR; }
      err := FuncStart(Erase);
      RanPrefix(a, l0, T().log, u, u + w);
      if !err.NONE? { return; }
      ghost var l1 := T().log;
      var ok := RunErase(addr);
      RanThen(a, l0, l1, T().log, u, w);
      BlamedLater(a, l0, l1, T().log, u, if ok then NONE else ERASE_SECTOR);
      return if ok then NONE else ERASE_SECTOR;
    }

    method RunErase(addr: u32) returns (ok: bool)
      requires Ready() && current.Some? && !lastFunc.Nop? && InFlash(Chip(), addr)
      requires SizeAt(Chip(), addr) > 0 && SectorOf(Chip(), addr) == addr
      modifies swd, T()
      ensures Valid() && (old(T().noisy) ==> T().noisy) && old(T().log) <= T().log
      ensures ok ==> Ready()
      ensures T().phase.failed == old(T().phase.failed)
      ensures T().phase.releases == old(T().phase.releases) && T().phase.blank == old(T().phase.blank)
      ensures Base(Chip()) <= addr
      ensures SameAround(old(T().Flash()), T().Flash(), addr - Base(Chip()), SizeAt(Chip(), addr))
      ensures ok && T().erases && !T().noisy ==> Blank(T().mem, addr, SizeAt(Chip(), addr))
      ensures T().reliable ==> T().noisy == old(T().noisy) && ok
      ensures Ran(current.value, old(T().log), T().log, [Use(Routine.EraseSector, addr, 0, 0)])
      ensures ok ==> RanAll(current.value, old(T().log), T().log, [Use(Routine.EraseSector, addr, 0, 0)])
      ensures Blamed(old(T().log), T().log, if ok then NONE else ERASE_SECTOR)
    {
      hide Scan, Blank, Sorted, Aligned, Ran, RanAll, SameAround;
      SectorGeometry(Chip(), addr);
      ok := Exec(current.value, DebugTarget.EraseSector, addr, 0, 0);
      RanOne(current.value, old(T().log), T().log[|old(T().log)|]);
    }

    /** Programs `buf` at `addr`, one page buffer at a time, and checks every page. */
    method ProgramPage(addr: u32, buf: seq<byte>) returns (err: Err)
      requires Valid() && (cfg.Some? && current.Some? ==> Ready())
      requires Base(Chip()) <= addr && addr + |buf| <= Chip().limit
      modifies `lastFunc, verifyBuf, swd, T()
      ensures Valid() && (old(T().noisy) ==> T().noisy) && old(T().log) <= T().log
      ensures err.NONE? ==> Ready()
      ensures T().phase.failed == old(T().phase.failed) && T().phase.releases == old(T().phase.releases)
      ensures SameAround(old(T().Flash()), T().Flash(), addr - Base(Chip()), |buf|)
      ensures err.NONE? && !T().noisy ==> T().Flash()[addr - Base(Chip())..addr - Base(Chip()) + |buf|] == buf
      ensures Blank(old(T().Flash()), addr - Base(Chip()), |buf|) ==> T().phase.blank == old(T().phase.blank)
      ensures T().reliable ==> T().noisy == old(T().noisy)
      ensures T().reliable && !T().noisy && old(Ready() && current.Some?)
              && Blank(old(T().Flash()), addr - Base(Chip()), |buf|) ==>
                err.NONE?
      ensures !err.UNINIT?
      ensures old(cfg.Some? && current.Some?) ==>
                var a, u := current.value, old(Opening(Program)) + PageUses(current.value, addr, |buf|);
                Ran(a, old(T().log), T().log, u) && (err.NONE? ==> RanAll(a, old(T().log), T().log, u))
      ensures err.NONE? ==> old(cfg.Some? && current.Some?)
      ensures Blamed(old(T().log), T().log, err)
      ensures old(cfg).None? ==> err.FAILURE?
      ensures old(cfg).Some? && old(current).None? ==> err.ALGO_MISSING?
      ensures old(cfg.Some? && current.Some?) ==> err in {NONE, Err.INIT, ALGO_DATA_SEQ, WRITE, WRITE_VERIFY}
    {
      if cfg.None? { return FAILURE; }
      if current.None? { return ALGO_MISSING; }
      var a := current.value;
      hide Ran, RanAll, PageUses, Blamed;
      ghost var l0, u, pages := T().log, Opening(Program), PageUses(a, addr, |buf|);
      err := FuncStart(Program);
      RanPrefix(a, l0, T().log, u, u + pages);
      if !err.NONE? { return; }
      ghost var l1 := T().log;
      err := ProgramChunks(a, addr, buf);
      RanThen(a, l0, l1, T().log, u, pages);
      BlamedLater(a, l0, l1, T().log, u, err);
    }

    /** Where programming `buf` over flash `f` stands after `k` bytes. */
    ghost predicate Progress(f: seq<byte>, at: nat, buf: seq<byte>, k: nat, blank: bool)
      requires k <= |buf| && T().Sized() && ValidChip(Chip())
      reads T()
    {
      && SameAround(f, T().Flash(), at, k)
      && (!T().noisy ==> T().Flash()[at..at + k] == buf[..k])
      && (Blank(f, at, |buf|) ==> T().phase.blank == blank)
    }

    method ProgramChunks(a: Algo, addr: u32, buf: seq<byte>) returns (err: Err)
      requires Ready() && current == Some(a) && !lastFunc.Nop?
      requires Base(Chip()) <= addr && addr + |buf| <= Chip().limit
      modifies `lastFunc, verifyBuf, swd, T()
      ensures Valid() && (old(T().noisy) ==> T().noisy) && old(T().log) <= T().log
      ensures err.NONE? ==> Ready()
      ensures T().phase.failed == old(T().phase.failed) && T().phase.releases == old(T().phase.releases)
      ensures SameAround(old(T().Flash()), T().Flash(), addr - Base(Chip()), |buf|)
      ensures err.NONE? && !T().noisy ==> T().Flash()[addr - Base(Chip())..addr - Base(Chip()) + |buf|] == buf
      ensures Blank(old(T().Flash()), addr - Base(Chip()), |buf|) ==> T().phase.blank == old(T().phase.blank)
      ensures T().reliable ==> T().noisy == old(T().noisy)
      ensures T().reliable && !T().noisy && Blank(old(T().Flash()), addr - Base(Chip()), |buf|) ==> err.NONE?
      ensures !err.UNINIT?
      ensures Ran(a, old(T().log), T().log, PageUses(a, addr, |buf|))
      ensures err.NONE? ==> RanAll(a, old(T().log), T().log, PageUses(a, addr, |buf|))
      ensures Blamed(old(T().log), T().log, err)
      ensures err in {NONE, ALGO_DATA_SEQ, WRITE, WRITE_VERIFY}
    {
      hide SameAround, Blank, Scan, Next, Describes, Ran, RanAll, Paged, PageUses, PageUse;
      err := NONE;
      ghost var f, at, blank := T().Flash(), addr - Base(Chip()), T().phase.blank;
      ChunkStart(f, at, |buf|);
      var k := 0;
      ghost var l0, j := T().log, 0;
      NoPages(a, addr, |buf|, l0);
      while k < |buf|
        invariant k <= |buf| && Ready() && current == Some(a) && !lastFunc.Nop? && err.NONE?
        invariant Paged(a, addr, |buf|, l0, T().log, j, k)
        invariant (old(T().noisy) ==> T().noisy) && old(T().log) <= T().log
        invariant T().reliable ==> T().noisy == old(T().noisy)
        invariant T().phase.failed == old(T().phase.failed) && T().phase.releases == old(T().phase.releases)
        invariant Progress(f, at, buf, k, blank)
      {
        var n := if |buf| - k <= a.programBufferSize then |buf| - k else a.programBufferSize;
        ghost var l1 := T().log;
        err := ProgramNext(a, addr, buf, k, n, f, blank);
        PageDone(a, addr, |buf|, l0, l1, T().log, j, k, n);
        BlamedPage(a, addr, |buf|, l0, l1, T().log, j, k, err);
        if !err.NONE? { return; }
        k, j := k + n, j + 1;
      }
      assert buf[..k] == buf;
      AllPages(a, addr, |buf|, l0, T().log, j);
      BlamedPage(a, addr, |buf|, l0, T().log, T().log, j, k, err);
    }

    /** The chunk of `n` bytes after the first `k`. */
    method ProgramNext(a: Algo, addr: u32, buf: seq<byte>, k: nat, n: nat, ghost f: seq<byte>, ghost blank: bool)
      returns (err: Err)
      requires Ready() && current == Some(a) && !lastFunc.Nop?
      requires Base(Chip()) <= addr && addr + |buf| <= Chip().limit && |f| == |T().Flash()|
      requires 0 < n <= a.programBufferSize && k + n <= |buf|
      requires Progress(f, addr - Base(Chip()), buf, k, blank)
      modifies `lastFunc, verifyBuf, swd, T()
      ensures Valid() && (old(T().noisy) ==> T().noisy) && old(T().log) <= T().log
      ensures err.NONE? ==> Ready() && !lastFunc.Nop? && Progress(f, addr - Base(Chip()), buf, k + n, blank)
      ensures T().phase.failed == old(T().phase.failed) && T().phase.releases == old(T().phase.releases)
      ensures SameAround(f, T().Flash(), addr - Base(Chip()), |buf|)
      ensures Blank(f, addr - Base(Chip()), |buf|) ==> T().phase.blank == blank
      ensures T().reliable ==> T().noisy == old(T().noisy)
      ensures T().reliable && !T().noisy && Blank(f, addr - Base(Chip()), |buf|) ==> err.NONE?
      ensures !err.UNINIT?
      ensures Ran(a, old(T().log), T().log, PageUse(a, addr + k, n))
      ensures err.NONE? ==> RanAll(a, old(T().log), T().log, PageUse(a, addr + k, n))
      ensures Blamed(old(T().log), T().log, err)
      ensures err in {NONE, ALGO_DATA_SEQ, WRITE, WRITE_VERIFY}
    {
      hide SameAround, Blank, Scan, Next, Describes;
      ghost var g, at := T().Flash(), addr - Base(Chip());
      err := ProgramChunk(a, addr + k, buf[k..k + n]);
      ChunkDone(f, g, T().Flash(), at, k, n, buf);
    }

    /** One page buffer: stage it, program it, and verify it with the algorithm's own routine or by
        reading it back. */
    method ProgramChunk(a: Algo, addr: u32, data: seq<byte>) returns (err: Err)
      requires Ready() && current == Some(a) && !lastFunc.Nop?
      requires 0 < |data| <= a.programBufferSize && Base(Chip()) <= addr && addr + |data| <= Chip().limit
      modifies `lastFunc, verifyBuf, swd, T()
      ensures Valid() && (old(T().noisy) ==> T().noisy) && old(T().log) <= T().log
      ensures err.NONE? ==> Ready() && !lastFunc.Nop?
      ensures T().phase.failed == old(T().phase.failed) && T().phase.releases == old(T().phase.releases)
      ensures SameAround(old(T().Flash()), T().Flash(), addr - Base(Chip()), |data|)
      ensures err.NONE? && !T().noisy ==> T().Flash()[addr - Base(Chip())..addr - Base(Chip()) + |data|] == data
      ensures Blank(old(T().Flash()), addr - Base(Chip()), |data|) ==> T().phase.blank == old(T().phase.blank)
      ensures T().reliable ==> T().noisy == old(T().noisy)
      ensures T().reliable && !T().noisy && Blank(old(T().Flash()), addr - Base(Chip()), |data|) ==> err.NONE?
      ensures !err.UNINIT?
      ensures Ran(a, old(T().log), T().log, PageUse(a, addr, |data|))
      ensures err.NONE? ==> RanAll(a, old(T().log), T().log, PageUse(a, addr, |data|))
      ensures Blamed(old(T().log), T().log, err)
      ensures err in {NONE, ALGO_DATA_SEQ, WRITE, WRITE_VERIFY}
    {
      hide Ran, RanAll;
      ghost var l0, u := T().log, [Use(Routine.ProgramPage, addr, |data|, a.programBuffer)];
      RanNone(a, l0, PageUse(a, addr, |data|));
      var ok := Stage(a, data);
      if !ok { return ALGO_DATA_SEQ; }
      ok := RunProgram(a, addr, data);
      RanPrefix(a, l0, T().log, u, PageUse(a, addr, |data|));
      if !ok { return WRITE; }
      ghost var l1 := T().log;
      err := CheckChunk(a, addr, data);
      RanThen(a, l0, l1, T().log, u, PageUse(a, addr, |data|)[1..]);
      BlamedLater(a, l0, l1, T().log, u, err);
    }

    method CheckChunk(a: Algo, addr: u32, data: seq<byte>) returns (err: Err)
      requires Ready() && current == Some(a) && !lastFunc.Nop? && Staged(a, data)
      requires 0 < |data| <= a.programBufferSize && Base(Chip()) <= addr && addr + |data| <= Chip().limit
      modifies `lastFunc, verifyBuf, swd, T()
      ensures Valid() && (old(T().noisy) ==> T().noisy) && old(T().log) <= T().log
      ensures err.NONE? ==> Ready() && !lastFunc.Nop?
      ensures T().phase.failed == old(T().phase.failed)
      ensures T().phase.releases == old(T().phase.releases) && T().phase.blank == old(T().phase.blank)
      ensures T().Flash() == old(T().Flash())
      ensures err.NONE? && !T().noisy ==> T().Flash()[addr - Base(Chip())..addr - Base(Chip()) + |data|] == data
      ensures T().reliable ==> T().noisy == old(T().noisy)
      ensures T().reliable && !T().noisy
              && old(T().Flash())[addr - Base(Chip())..addr - Base(Chip()) + |data|] == data ==>
                err.NONE?
      ensures !err.UNINIT?
      ensures var u := if a.hasVerify then [Use(Routine.Verify, addr, |data|, a.programBuffer)] else [];
              Ran(a, old(T().log), T().log, u) && (err.NONE? ==> RanAll(a, old(T().log), T().log, u))
      ensures Blamed(old(T().log), T().log, err)
      ensures err in {NONE, ALGO_DATA_SEQ, WRITE, WRITE_VERIFY}
    {
      hide Describes, Scan, Blank, Sorted, Aligned;
      hide ReadPlan;
      FlashSlice(T().mem, Base(Chip()), Chip().limit, addr, |data|);
      RanNone(a, T().log, if a.hasVerify then [Use(Routine.Verify, addr, |data|, a.programBuffer)] else []);
      if a.hasVerify {
        err := FuncStart(Func.Verify);
        if !err.NONE? { return; }
        var ok := RunVerify(a, addr, data);
        err := if ok then NONE else WRITE_VERIFY;
      } else {
        err := ReadBack(addr, data);
      }
      FlashSlice(T().mem, Base(Chip()), Chip().limit, addr, |data|);
    }

    /** The page buffer of the algorithm holds `data`. */
    ghost predicate Staged(a: Algo, data: seq<byte>)
      requires T().Sized()
      reads T()
    {
      a.programBuffer + |data| <= ADDRESS_SPACE &&
      T().mem[a.programBuffer..a.programBuffer + |data|] == data
    }

    method Stage(a: Algo, data: seq<byte>) returns (ok: bool)
      requires Ready() && current == Some(a) && 0 < |data| <= a.programBufferSize
      modifies swd, T()
      ensures Valid() && (old(T().noisy) ==> T().noisy) && old(T().log) <= T().log
      ensures T().Flash() == old(T().Flash()) && T().phase == old(T().phase)
      ensures ok ==> Ready() && Staged(a, data)
      ensures T().reliable ==> T().noisy == old(T().noisy) && ok
      ensures T().log == old(T().log)
    {
      StagingHarmless(Chip(), a, T().mem, data);
      OverlaySlice(T().mem, a.programBuffer, data);
      ok := swd.WriteMemory(a.programBuffer, data);
    }

    method RunProgram(a: Algo, addr: u32, data: seq<byte>) returns (ok: bool)
      requires Ready() && current == Some(a) && !lastFunc.Nop? && Staged(a, data)
      requires 0 < |data| <= a.programBufferSize && Base(Chip()) <= addr && addr + |data| <= Chip().limit
      modifies swd, T()
      ensures Valid() && (old(T().noisy) ==> T().noisy) && old(T().log) <= T().log
      ensures ok ==> Ready() && Staged(a, data)
      ensures T().phase.failed == old(T().phase.failed) && T().phase.releases == old(T().phase.releases)
      ensures T().phase.blank == (old(T().phase.blank) && Blank(old(T().Flash()), addr - Base(Chip()), |data|))
      ensures SameAround(old(T().Flash()), T().Flash(), addr - Base(Chip()), |data|)
      ensures T().reliable ==> T().noisy == old(T().noisy) && ok
      ensures T().reliable && Blank(old(T().Flash()), addr - Base(Chip()), |data|) ==>
                T().Flash()[addr - Base(Chip())..addr - Base(Chip()) + |data|] == data
      ensures Ran(a, old(T().log), T().log, [Use(Routine.ProgramPage, addr, |data|, a.programBuffer)])
      ensures ok ==> RanAll(a, old(T().log), T().log, [Use(Routine.ProgramPage, addr, |data|, a.programBuffer)])
      ensures Blamed(old(T().log), T().log, if ok then NONE else WRITE)
    {
      hide Describes, Scan, Blank, SameAround, Sorted, Aligned;
      FlashSlice(T().mem, Base(Chip()), Chip().limit, addr, |data|);
      ok := Exec(a, DebugTarget.ProgramPage, addr, |data|, a.programBuffer);
      RanOne(a, old(T().log), T().log[|old(T().log)|]);
      FlashSlice(T().mem, Base(Chip()), Chip().limit, addr, |data|);
      BufferPrefix(old(T().mem), T().mem, a.programBuffer, a.programBufferSize, |data|);
    }

    method RunVerify(a: Algo, addr: u32, data: seq<byte>) returns (ok: bool)
      requires Ready() && current == Some(a) && !lastFunc.Nop? && Staged(a, data)
      requires 0 < |data| <= a.programBufferSize && addr + |data| <= ADDRESS_SPACE
      modifies swd, T()
      ensures Valid() && (old(T().noisy) ==> T().noisy) && old(T().log) <= T().log
      ensures ok ==> Ready()
      ensures T().phase.failed == old(T().phase.failed)
      ensures T().phase.releases == old(T().phase.releases) && T().phase.blank == old(T().phase.blank)
      ensures T().Flash() == old(T().Flash())
      ensures ok && !T().noisy ==> T().mem[addr..addr + |data|] == data
      ensures T().reliable ==> T().noisy == old(T().noisy) && (old(T().mem)[addr..addr + |data|] == data ==> ok)
      ensures Ran(a, old(T().log), T().log, [Use(Routine.Verify, addr, |data|, a.programBuffer)])
      ensures ok ==> RanAll(a, old(T().log), T().log, [Use(Routine.Verify, addr, |data|, a.programBuffer)])
      ensures Blamed(old(T().log), T().log, if ok then NONE else WRITE_VERIFY)
    {
      ok := Exec(a, DebugTarget.Verify, addr, |data|, a.programBuffer);
      RanOne(a, old(T().log), T().log[|old(T().log)|]);
      BufferPrefix(old(T().mem), T().mem, a.programBuffer, a.programBufferSize, |data|);
    }

    /** Compares target memory with `data` through the verify buffer. */
    method ReadBack(addr: u32, data: seq<byte>) returns (err: Err)
      requires Ready() && addr + |data| <= ADDRESS_SPACE
      modifies verifyBuf, swd, T()
      ensures Valid() && (old(T().noisy) ==> T().noisy) && old(T().log) <= T().log
      ensures err.NONE? ==> Ready()
      ensures T().mem == old(T().mem) && T().phase == old(T().phase)
      ensures err.NONE? && !T().noisy ==> T().mem[addr..addr + |data|] == data
      ensures err in {NONE, ALGO_DATA_SEQ, WRITE_VERIFY}
      ensures T().reliable ==> T().noisy == old(T().noisy)
      ensures T().reliable && !T().noisy && T().mem[addr..addr + |data|] == data ==> err.NONE?
      ensures T().log == old(T().log)
      ensures err.NONE? ==> swd.accesses == old(swd.accesses) + ReadPlan(addr, |data|)
    {
      hide Describes, Scan, ReadPlan;
      var k := 0;
      while k < |data|
        invariant k <= |data| && Ready()
        invariant (old(T().noisy) ==> T().noisy) && old(T().log) <= T().log
        invariant T().reliable ==> T().noisy == old(T().noisy)
        invariant T().mem == old(T().mem) && T().phase == old(T().phase) && T().log == old(T().log)
        invariant swd.accesses + ReadPlan(addr + k, |data| - k) == old(swd.accesses) + ReadPlan(addr, |data|)
        invariant !T().noisy ==> T().mem[addr..addr + k] == data[..k]
      {
        var n := if |data| - k <= VERIFY_BUF then |data| - k else VERIFY_BUF;
        NextRead(addr, |data|, k, n, old(swd.accesses) + ReadPlan(addr, |data|), swd.accesses);
        err := ReadPiece(addr, data, k, n);
        if !err.NONE? { return; }
        MatchMore(T().mem, addr, data, k, n);
        k := k + n;
      }
      assert data[..k] == data;
      AllRead(addr + k, swd.accesses);
      return NONE;
    }

    method ReadPiece(addr: u32, data: seq<byte>, k: nat, n: nat) returns (err: Err)
      requires Ready() && addr + |data| <= ADDRESS_SPACE && 0 < n <= VERIFY_BUF && k + n <= |data|
      modifies verifyBuf, swd, T()
      ensures Valid() && (old(T().noisy) ==> T().noisy) && old(T().log) <= T().log
      ensures err.NONE? ==> Ready()
      ensures T().mem == old(T().mem) && T().phase == old(T().phase)
      ensures err.NONE? && !T().noisy ==> T().mem[addr + k..addr + k + n] == data[k..k + n]
      ensures err in {NONE, ALGO_DATA_SEQ, WRITE_VERIFY}
      ensures T().reliable ==> T().noisy == old(T().noisy)
      ensures T().reliable && !T().noisy && T().mem[addr..addr + |data|] == data ==> err.NONE?
      ensures T().log == old(T().log)
      ensures err.NONE? ==> swd.accesses == old(swd.accesses) + Swd.Plan(addr + k, n)
    {
      hide Describes, Scan;
      var ok := swd.ReadMemory(addr + k, verifyBuf, 0, n);
      if !ok { return ALGO_DATA_SEQ; }
      PieceMatches(T().mem, addr, data, k, n);
      err := if verifyBuf[..n] != data[k..k + n] then WRITE_VERIFY else NONE;
    }
  }

  lemma PieceMatches(mem: seq<byte>, at: nat, data: seq<byte>, k: nat, n: nat)
    requires k + n <= |data| && at + |data| <= |mem|
    ensures mem[at..at + |data|] == data ==> mem[at + k..at + k + n] == data[k..k + n]
  {
    var w, v := mem[at..at + |data|], mem[at + k..at + k + n];
    forall i | 0 <= i < n ensures v[i] == w[k + i] {
      assert w[k + i] == mem[at + (k + i)];
    }
    assert v == w[k..k + n];
  }

  lemma MatchMore(mem: seq<byte>, at: nat, data: seq<byte>, k: nat, n: nat)
    requires k + n <= |data| && at + k + n <= |mem|
    ensures mem[at..at + k] == data[..k] && mem[at + k..at + k + n] == data[k..k + n] ==>
              mem[at..at + k + n] == data[..k + n]
  {
    assert mem[at..at + k + n] == mem[at..at + k] + mem[at + k..at + k + n];
    assert data[..k + n] == data[..k] + data[k..k + n];
  }

  lemma BufferPrefix(mem: seq<byte>, m: seq<byte>, p: nat, size: nat, n: nat)
    requires n <= size && p + size <= |mem| == |m| && m[p..p + size] == mem[p..p + size]
    ensures m[p..p + n] == mem[p..p + n]
  {
    assert m[p..p + n] == m[p..p + size][..n];
    assert mem[p..p + n] == mem[p..p + size][..n];
  }

  /** A range of target memory, seen through the flash window. */
  lemma FlashSlice(mem: seq<byte>, lo: nat, hi: nat, addr: nat, n: nat)
    requires lo <= addr && addr + n <= hi <= |mem|
    ensures mem[lo..hi][addr - lo..addr - lo + n] == mem[addr..addr + n]
    ensures Blank(mem[lo..hi], addr - lo, n) == Blank(mem, addr, n)
  {
    assert forall i :: addr <= i < addr + n ==> mem[i] == mem[lo..hi][i - lo];
    assert forall i :: addr - lo <= i < addr - lo + n ==> mem[lo..hi][i] == mem[i + lo];
  }

  lemma ChunkStart(f: seq<byte>, at: nat, n: nat)
    requires at + n <= |f|
    ensures SameAround(f, f, at, 0) && SameAround(f, f, at, n)
  {
  }

  /** After the first `k` bytes, `n` more: what is changed, what is there, and what is still blank. */
  lemma ChunkDone(f: seq<byte>, g: seq<byte>, h: seq<byte>, at: nat, k: nat, n: nat, buf: seq<byte>)
    requires SameAround(f, g, at, k) && SameAround(g, h, at + k, n) && k + n <= |buf| && at + |buf| <= |f|
    ensures SameAround(f, h, at, k + n) && SameAround(f, h, at, |buf|)
    ensures g[at..at + k] == buf[..k] && h[at + k..at + k + n] == buf[k..k + n] ==> h[at..at + k + n] == buf[..k + n]
    ensures Blank(f, at, |buf|) ==> Blank(g, at + k, n)
  {
    assert h[..at] == g[..at + k][..at];
    assert forall i :: at + k <= i < |f| ==> g[i] == g[at + k..][i - at - k] == f[at + k..][i - at - k] == f[i];
    assert forall i :: at + k + n <= i < |f| ==>
             h[i] == h[at + k + n..][i - at - k - n] == g[at + k + n..][i - at - k - n] == g[i];
    assert h[at..at + k] == h[..at + k][at..] == g[..at + k][at..] == g[at..at + k];
    MatchMore(h, at, buf, k, n);
  }
}
