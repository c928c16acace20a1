/** The sector write-back buffer over the flash-algorithm driver. */
module Accessor {
  import opened Words
  import opened FlashIface
  import opened FlashModel
  import opened FlashResult
  import DebugTarget
  import Session
  import Swd
  import opened FlashDriver

  class FlashAccessor {
    const flash: TargetFlash
    var state: FlashState
    var sectorValid: bool
    var lastAddr: u32
    var blockAddr: u32
    var blockSize: u32
    var sectorAddr: u32
    var sectorSize: u32
    var empty: bool
    var buffer: array<byte>
    ghost var start: seq<byte>     // the flash when the session was opened
    ghost var session: seq<Cell>   // the bytes it was asked to write since
    ghost var began: nat           // how many routines had run on the target by then

    ghost function T(): DebugTarget.Target {
      flash.swd.target
    }

    ghost function Chip(): FlashIface.Chip {
      flash.swd.target.chip
    }

    /** The sector is set up, the block is the sector, and the block either starts with the sector or,
        with nothing gathered, has moved on to the sector's end. */
    ghost predicate Consistent()
      requires ValidChip(Chip())
      reads this, buffer
    {
      && sectorSize == blockSize == buffer.Length
      && IsSector(Chip(), sectorAddr, blockSize)
      && lastAddr <= Chip().limit
      && blockAddr == RoundDown(lastAddr, blockSize)
      && (blockAddr == sectorAddr || (blockAddr == sectorAddr + sectorSize && empty))
      && (empty ==> Erased())
    }

    ghost predicate Erased()
      reads this, buffer
    {
      forall i :: 0 <= i < buffer.Length ==> buffer[i] == ERASED
    }

    ghost predicate Valid()
      reads this, buffer, flash, flash.swd, T()
    {
      && flash.Valid() && buffer != flash.verifyBuf && blockSize <= buffer.Length
      && Spares()
      && (state.Open? ==> flash.Ready())
      && (state.Open? && !sectorValid ==> empty && blockSize == 0 && flash.current.None?)
      && (state.Open? && sectorValid ==> Consistent() && flash.Selected(sectorAddr))
      && (state.Error? ==> T().phase.failed && flash.cfg.Some?)
      && (state.Closed? ==> empty)
    }

    /** No sector has changed but those the session's bytes go to; what is gathered is in one of these.
        Holds in failing sessions too. */
    ghost predicate Spares()
      reads this, T()
    {
      && T().Valid() && Kept(Chip(), start, T().Flash(), session)
      && (!empty ==> InFlash(Chip(), sectorAddr) && Touches(Chip(), session, sectorAddr))
    }

    /** The accessor stands for the flash it found with the session's bytes put one by one; and if no commit of
        these changes the flash, nothing has run on the target. */
    ghost predicate Gathered()
      reads this, buffer, flash, T()
    {
      && T().Valid() && Sound(Chip(), Store(start, Idle)) && Inside(Chip(), session)
      && (session != [] ==> sectorValid)
      && (!T().noisy ==> Abs() == PutAll(Chip(), Store(start, Idle), session))
      && (!T().noisy && Quiet(Chip(), Store(start, Idle), session) ==> T().phase.calls == began && flash.lastFunc.Nop?)
    }

    /** No sector has changed but those of `xs`, if these are the bytes the session was to write, or more. */
    lemma SessionSpares(xs: seq<Cell>)
      requires Valid() && session <= xs
      ensures Kept(Chip(), start, T().Flash(), xs)
    {
      KeptMore(Chip(), start, T().Flash(), session, xs);
    }

    /** What the accessor and the flash behind it stand for. */
    ghost function Abs(): Store
      requires T().Sized() && ValidChip(Chip())
      reads this, buffer, T()
    {
      Store(T().Flash(), if empty then Idle else Opened(sectorAddr, buffer[..]))
    }

    lemma OpenSound()
      requires Valid() && state.Open?
      ensures Sound(Chip(), Abs())
    {
      BaseBelowLimit(Chip());
    }

    constructor (flash: TargetFlash)
      requires flash.Valid()
      ensures Valid() && this.flash == flash && state.Closed? && fresh(buffer)
    {
      this.flash := flash;
      state, sectorValid, empty := Closed, false, true;
      lastAddr, blockAddr, blockSize, sectorAddr, sectorSize := 0, 0, 0, 0, 0;
      buffer := new byte[0];
      start, session, began := flash.swd.target.Flash(), [], 0;
      BaseBelowLimit(flash.swd.target.chip);
      KeptSame(flash.swd.target.chip, flash.swd.target.Flash(), []);
    }

    /** Compares the block with the flash: is it the same, is the flash blank? Stops early only when both
        answers are no. */
    method ScanBlock() returns (err: Err, same: bool, blank: bool)
      requires flash.Ready() && buffer != flash.verifyBuf && buffer.Length == blockSize
      requires Base(Chip()) <= blockAddr && blockAddr + blockSize <= Chip().limit
      modifies flash.verifyBuf, flash.swd, T()
      ensures flash.Valid() && (old(T().noisy) ==> T().noisy) && old(T().log) <= T().log
      ensures err.NONE? ==> flash.Ready()
      ensures T().mem == old(T().mem) && T().phase == old(T().phase)
      ensures var at := blockAddr - Base(Chip());
              err.NONE? && !T().noisy ==>
                && same == (T().Flash()[at..at + blockSize] == buffer[..])
                && blank == DebugTarget.Blank(T().Flash(), at, blockSize)
      ensures T().reliable ==> T().noisy == old(T().noisy) && err.NONE?
      ensures err in {NONE, ALGO_DATA_SEQ}
      ensures T().log == old(T().log)
      ensures err.NONE? ==>
                var plan, now := old(flash.swd.accesses) + ReadPlan(blockAddr, blockSize), flash.swd.accesses;
                now <= plan && (same || blank ==> now == plan)
    {
      hide DebugTarget.Resident, Placed, Serves, IsSector;
      hide DebugTarget.Blank, DebugTarget.Scan, Describes, Sorted, Aligned;
      hide ReadPlan;
      ghost var m := T().mem[blockAddr..blockAddr + blockSize];
      BlockSlice(T().mem, Base(Chip()), Chip().limit, blockAddr, blockSize);
      err, same, blank := ScanPieces(m);
    }

    /** Compares it piece by piece; its content in the flash is `m`. */
    method ScanPieces(ghost m: seq<byte>) returns (err: Err, same: bool, blank: bool)
      requires flash.Ready() && buffer != flash.verifyBuf && buffer.Length == blockSize
      requires blockAddr + blockSize <= ADDRESS_SPACE && m == T().mem[blockAddr..blockAddr + blockSize]
      modifies flash.verifyBuf, flash.swd, T()
      ensures flash.Valid() && (old(T().noisy) ==> T().noisy)
      ensures err.NONE? ==> flash.Ready()
      ensures T().mem == old(T().mem) && T().phase == old(T().phase) && T().log == old(T().log)
      ensures err.NONE? && !T().noisy ==> same == (m == buffer[..]) && blank == DebugTarget.Blank(m, 0, |m|)
      ensures T().reliable ==> T().noisy == old(T().noisy) && err.NONE?
      ensures err in {NONE, ALGO_DATA_SEQ}
      ensures err.NONE? ==>
                var plan, now := old(flash.swd.accesses) + ReadPlan(blockAddr, blockSize), flash.swd.accesses;
                now <= plan && (same || blank ==> now == plan)
    {
      hide DebugTarget.Resident, Placed, Serves, IsSector;
      hide DebugTarget.Blank, DebugTarget.Scan, Describes, Sorted, Aligned;
      hide ReadPlan;
      same, blank := true, true;
      ghost var plan := flash.swd.accesses + ReadPlan(blockAddr, blockSize);
      WholeBlock(m, buffer[..]);
      var k := 0;
      while k < blockSize
        invariant k <= blockSize && flash.Ready()
        invariant old(T().noisy) ==> T().noisy
        invariant T().reliable ==> T().noisy == old(T().noisy)
        invariant T().mem == old(T().mem) && T().phase == old(T().phase) && T().log == old(T().log)
        invariant !T().noisy ==> Scanned(m, k, same, blank)
        invariant flash.swd.accesses + ReadPlan(blockAddr + k, blockSize - k) == plan
      {
        var n := if blockSize - k <= VERIFY_BUF then blockSize - k else VERIFY_BUF;
        var ok;
        ok, same, blank := ScanPiece(k, n, same, blank, m, plan);
        if !ok { return ALGO_DATA_SEQ, same, blank; }
        if !same && !blank {
          if !T().noisy { BothSettled(m, buffer[..], k + n); }
          break;
        }
        k := k + n;
      }
      AllRead(blockAddr + k, flash.swd.accesses);
      err := NONE;
    }

    /** The two answers are right for the first `k` bytes of the block, whose flash content is `m`. */
    ghost predicate Scanned(m: seq<byte>, k: nat, same: bool, blank: bool)
      requires k <= |m| == buffer.Length
      reads this, buffer
    {
      same == (m[..k] == buffer[..k]) && blank == DebugTarget.Blank(m, 0, k)
    }

    method ScanPiece(k: nat, n: nat, same0: bool, blank0: bool, ghost m: seq<byte>, ghost plan: seq<Swd.Access>)
      returns (ok: bool, same: bool, blank: bool)
      requires flash.Ready() && buffer != flash.verifyBuf && buffer.Length == blockSize
      requires blockAddr + blockSize <= ADDRESS_SPACE && k < blockSize
      requires n == if blockSize - k <= VERIFY_BUF then blockSize - k else VERIFY_BUF
      requires flash.swd.accesses + ReadPlan(blockAddr + k, blockSize - k) == plan
      requires m == T().mem[blockAddr..blockAddr + blockSize]
      requires !T().noisy ==> Scanned(m, k, same0, blank0)
      modifies flash.verifyBuf, flash.swd, T()
      ensures flash.Valid() && (old(T().noisy) ==> T().noisy) && old(T().log) <= T().log
      ensures ok ==> flash.Ready()
      ensures T().mem == old(T().mem) && T().phase == old(T().phase)
      ensures ok && !T().noisy ==> Scanned(m, k + n, same, blank)
      ensures T().reliable ==> T().noisy == old(T().noisy) && ok
      ensures T().log == old(T().log)
      ensures var now := flash.swd.accesses;
              ok ==> now <= plan && now + ReadPlan(blockAddr + k + n, blockSize - k - n) == plan
    {
      hide DebugTarget.Blank, DebugTarget.Scan, Sorted, Aligned;
      hide ReadPlan;
      same, blank := same0, blank0;
      ok := FetchPiece(k, n, m, plan);
      if !ok { return; }
      ScanMore(m, buffer[..], k, n);
      if same && buffer[k..k + n] != flash.verifyBuf[..n] { same := false; }
      if blank { blank := AllErased(flash.verifyBuf, n); }
    }

    /** Reads a piece of the block into the verify buffer. */
    method FetchPiece(k: nat, n: nat, ghost m: seq<byte>, ghost plan: seq<Swd.Access>) returns (ok: bool)
      requires flash.Ready() && blockAddr + blockSize <= ADDRESS_SPACE && k < blockSize
      requires n == if blockSize - k <= VERIFY_BUF then blockSize - k else VERIFY_BUF
      requires flash.swd.accesses + ReadPlan(blockAddr + k, blockSize - k) == plan
      requires m == T().mem[blockAddr..blockAddr + blockSize]
      modifies flash.verifyBuf, flash.swd, T()
      ensures flash.Valid() && (old(T().noisy) ==> T().noisy)
      ensures ok ==> flash.Ready()
      ensures T().mem == old(T().mem) && T().phase == old(T().phase) && T().log == old(T().log)
      ensures ok && !T().noisy ==> flash.verifyBuf[..n] == m[k..k + n]
      ensures T().reliable ==> T().noisy == old(T().noisy) && ok
      ensures var now := flash.swd.accesses;
              ok ==> now <= plan && now + ReadPlan(blockAddr + k + n, blockSize - k - n) == plan
    {
      hide ReadPlan, DebugTarget.Scan, Sorted, Aligned, Describes, Placed, DebugTarget.Resident;
      hide ValidChip, Swd.Plan, SameAround;
      NextRead(blockAddr, blockSize, k, n, plan, flash.swd.accesses);
      ok := flash.swd.ReadMemory(blockAddr + k, flash.verifyBuf, 0, n);
      PieceOf(T().mem, blockAddr, blockSize, k, n);
    }

    method AllErased(a: array<byte>, n: nat) returns (all: bool)
      requires n <= a.Length
      ensures all == DebugTarget.Blank(a[..n], 0, n)
    {
      FirstErased(a[..], n);
      all := true;
      for i := 0 to n
        invariant all == DebugTarget.Blank(a[..], 0, i)
      {
        if a[i] != ERASED { all := false; }
      }
    }

    /** Brings the flash block to the content of the buffer: nothing to do if it is there already; no
        erase if the flash is blank. */
    method CompareFlush() returns (err: Err)
      requires flash.Ready() && flash.current.Some? && buffer != flash.verifyBuf && buffer.Length == blockSize
      requires IsSector(Chip(), sectorAddr, blockSize) && blockAddr == sectorAddr
      modifies flash`lastFunc, flash`state, flash.verifyBuf, flash.swd, T()
      ensures flash.Valid() && (old(T().noisy) ==> T().noisy) && old(T().log) <= T().log
      ensures err.NONE? ==> flash.Ready()
      ensures T().phase.failed == old(T().phase.failed)
      ensures old(InBlock()) && InBlock() && SameAround(old(T().Flash()), T().Flash(), Offset(), blockSize)
      ensures err.NONE? && !T().noisy ==> Block() == buffer[..]
      ensures !T().noisy && old(InBlock() && Block() == buffer[..]) ==>
                && T().Flash() == old(T().Flash()) && T().phase.calls == old(T().phase.calls)
                && flash.lastFunc == old(flash.lastFunc)
      ensures !T().noisy && T().erases ==> T().phase.blank == old(T().phase.blank)
      ensures T().reliable ==> T().noisy == old(T().noisy) && (!T().noisy ==> err.NONE?)
      ensures !flash.lastFunc.Nop? ==> T().phase.releases == old(T().phase.releases)
      ensures !err.UNINIT?
      ensures !T().noisy && old(Block() == buffer[..]) ==> T().log == old(T().log)
      ensures !T().noisy && old(Block() != buffer[..]) ==>
                var blank := DebugTarget.Blank(old(T().Flash()), Offset(), blockSize);
                var a, u := flash.current.value, old(RewriteUses(blank));
                && (Ran(a, old(T().log), T().log, u) || (!blank && HandedBack(T().log)))
                && (err.NONE? ==> RanAll(a, old(T().log), T().log, u))
    {
      hide Ran, RanAll, RewriteUses, DebugTarget.Blank, DebugTarget.Scan, Describes, Sorted, Aligned;
      hide SameAround, ReadPlan, HandedBack, TargetFlash.Opening;
      SectorFits(Chip(), sectorAddr, blockSize);
      SectorOfAll(Chip(), sectorAddr, blockSize);
      ChunkStart(T().Flash(), Offset(), blockSize);
      var same, blank;
      err, same, blank := ScanBlock();
      RanNone(flash.current.value, T().log, RewriteUses(true));
      RanNone(flash.current.value, T().log, RewriteUses(false));
      assert !T().noisy && err.NONE? ==>
               same == (Block() == buffer[..]) && blank == DebugTarget.Blank(T().Flash(), Offset(), blockSize);
      if !err.NONE? || same { return; }
      err := Rewrite(blank);
    }

    /** The block lies in the flash. */
    ghost predicate InBlock()
      requires ValidChip(Chip())
      reads this
    {
      Base(Chip()) <= blockAddr && blockAddr + blockSize <= Chip().limit
    }

    ghost function Offset(): nat
      requires ValidChip(Chip()) && InBlock()
      reads this
    {
      blockAddr - Base(Chip())
    }

    /** The flash content of the block. */
    ghost function Block(): seq<byte>
      requires ValidChip(Chip()) && InBlock() && T().Sized()
      reads this, T()
    {
      T().Flash()[Offset()..Offset() + blockSize]
    }

    /** The calls that bring the block into the flash: Init, unless a function is open; EraseSector, unless the block
        is blank; and those that program it. */
    ghost function RewriteUses(blank: bool): seq<Use>
      requires flash.current.Some? && flash.current.value.programBufferSize > 0
      reads this, flash
    {
      var pages := PageUses(flash.current.value, blockAddr, blockSize);
      if blank then flash.Opening(Program) + pages
      else flash.Opening(Erase) + ([Use(DebugTarget.EraseSector, blockAddr, 0, 0)] + pages)
    }

    /** Erases the sector unless it is blank, and programs it. */
    method Rewrite(blank: bool) returns (err: Err)
      requires flash.Ready() && flash.current.Some? && buffer != flash.verifyBuf && buffer.Length == blockSize
      requires IsSector(Chip(), sectorAddr, blockSize) && blockAddr == sectorAddr && InBlock()
      requires blank && !T().noisy ==> DebugTarget.Blank(T().Flash(), Offset(), blockSize)
      modifies flash`lastFunc, flash`state, flash.verifyBuf, flash.swd, T()
      ensures flash.Valid() && (old(T().noisy) ==> T().noisy) && old(T().log) <= T().log
      ensures err.NONE? ==> flash.Ready()
      ensures T().phase.failed == old(T().phase.failed)
      ensures SameAround(old(T().Flash()), T().Flash(), Offset(), blockSize)
      ensures err.NONE? && !T().noisy ==> Block() == buffer[..]
      ensures !T().noisy && T().erases ==> T().phase.blank == old(T().phase.blank)
      ensures T().reliable ==> T().noisy == old(T().noisy) && (!T().noisy ==> err.NONE?)
      ensures !flash.lastFunc.Nop? ==> T().phase.releases == old(T().phase.releases)
      ensures !err.UNINIT?
      ensures var a, u := flash.current.value, old(RewriteUses(blank));
              && (Ran(a, old(T().log), T().log, u) || (!blank && HandedBack(T().log)))
              && (err.NONE? ==> RanAll(a, old(T().log), T().log, u))
    {
      hide DebugTarget.Scan, Describes, Sorted, Aligned;
      hide SameAround, DebugTarget.Blank;
      hide Ran, RanAll, PageUses;
      ghost var f, a, l0, open := T().Flash(), flash.current.value, T().log, flash.Opening(Erase);
      ghost var erase, pages := [Use(DebugTarget.EraseSector, blockAddr, 0, 0)], PageUses(a, blockAddr, blockSize);
      ChunkStart(f, Offset(), blockSize);
      if !blank {
        err := EraseBlock();
        if !err.NONE? { return; }
      }
      ghost var g, l1 := T().Flash(), T().log;
      err := flash.ProgramPage(blockAddr, buffer[..]);
      if !blank { RanErased(a, l0, l1, T().log, open, erase, pages); }
      SameAroundTrans(f, g, T().Flash(), Offset(), blockSize, Offset(), blockSize);
    }

    /** Erases the sector; a failure ends the session on the target. */
    method EraseBlock() returns (err: Err)
      requires flash.Ready() && flash.current.Some?
      requires IsSector(Chip(), sectorAddr, blockSize) && blockAddr == sectorAddr && InBlock()
      modifies flash`lastFunc, flash`state, flash.swd, T()
      ensures flash.Valid() && (old(T().noisy) ==> T().noisy) && old(T().log) <= T().log
      ensures err.NONE? ==> flash.Ready()
      ensures T().phase.failed == old(T().phase.failed) && T().phase.blank == old(T().phase.blank)
      ensures SameAround(old(T().Flash()), T().Flash(), Offset(), blockSize)
      ensures err.NONE? && !T().noisy && T().erases ==> DebugTarget.Blank(T().Flash(), Offset(), blockSize)
      ensures T().reliable ==> T().noisy == old(T().noisy) && err.NONE?
      ensures err.NONE? || !flash.lastFunc.Nop? ==> T().phase.releases == old(T().phase.releases)
      ensures !err.UNINIT?
      ensures err.NONE? ==>
                RanAll(flash.current.value, old(T().log), T().log,
                       old(flash.Opening(Erase)) + [Use(DebugTarget.EraseSector, blockAddr, 0, 0)])
      ensures err.NONE? ==> !flash.lastFunc.Nop?
      ensures !err.NONE? ==> HandedBack(T().log) && err in {ERASE_SECTOR, Err.INIT}
    {
      hide DebugTarget.Scan, Describes, Sorted, Aligned;
      hide Ran, RanAll;
      err := flash.EraseSector(sectorAddr);
      if !err.NONE? {
        var status := flash.FlashUninit();
      } else {
        FlashSlice(T().mem, Base(Chip()), Chip().limit, sectorAddr, blockSize);
      }
    }

    /** The block is the sector, and the buffer is as long; 0xFF throughout if nothing is gathered. */
    ghost predicate SetUp()
      requires ValidChip(Chip())
      reads this, buffer
    {
      && sectorSize == blockSize == buffer.Length
      && IsSector(Chip(), sectorAddr, blockSize)
      && (blockAddr == sectorAddr || (blockAddr == sectorAddr + sectorSize && empty))
      && (empty ==> Erased())
    }

    lemma AbsSound()
      requires T().Valid() && SetUp()
      ensures Sound(Chip(), Abs())
    {
    }

    /** Writes the gathered bytes out, if there are any, and moves the block to where `addr` is. */
    method FlushCurrentBlock(addr: u32) returns (err: Err)
      requires flash.Valid() && buffer != flash.verifyBuf && blockSize <= buffer.Length
      requires blockSize > 0 ==> flash.Ready() && flash.current.Some? && SetUp()
      requires blockSize == 0 ==> empty
      requires Spares()
      modifies `empty, `blockAddr, buffer, flash`lastFunc, flash`state, flash.verifyBuf, flash.swd, T()
      ensures flash.Valid() && (old(T().noisy) ==> T().noisy) && old(T().log) <= T().log && empty
      ensures err.NONE? ==> flash.Ready() && blockSize > 0 && blockAddr == RoundDown(addr, blockSize)
      ensures blockSize == 0 ==> err.INTERNAL?
      ensures blockSize > 0 ==> Erased()
      ensures T().phase.failed == old(T().phase.failed)
      ensures old(empty) ==>
                T().Flash() == old(T().Flash()) && T().phase == old(T().phase) && flash.lastFunc == old(flash.lastFunc)
      ensures old(empty) && blockSize > 0 ==> err.NONE?
      ensures blockSize > 0 ==> old(Sound(Chip(), Abs()))
      ensures blockSize > 0 && err.NONE? && !T().noisy ==> Abs() == old(Commit(Chip(), Abs()))
      ensures blockSize > 0 && !T().noisy && old(Commit(Chip(), Abs()).flash == Abs().flash) ==>
                && T().Flash() == old(T().Flash()) && T().phase.calls == old(T().phase.calls)
                && flash.lastFunc == old(flash.lastFunc)
      ensures !T().noisy && T().erases ==> T().phase.blank == old(T().phase.blank)
      ensures Spares()
      ensures T().reliable ==> T().noisy == old(T().noisy) && (!T().noisy && blockSize > 0 ==> err.NONE?)
      ensures !flash.lastFunc.Nop? ==> T().phase.releases == old(T().phase.releases)
      ensures !err.UNINIT?
      ensures OnlyOpen(Chip(), old(Abs()), T().Flash())
    {
      hide Kept, Touches, DebugTarget.Scan, Describes, Sorted, Aligned, DebugTarget.Resident, Serves, Placed;
      BaseBelowLimit(Chip());
      err := NONE;
      if !empty {
        ghost var f := T().Flash();
        err := FlushGathered();
        KeptSector(Chip(), start, f, T().Flash(), session, sectorAddr, blockSize);
        OnlyOpenSector(Chip(), f, T().Flash(), sectorAddr, buffer[..]);
        empty := true;
      }
      Clear();
      if blockSize == 0 { return INTERNAL; }
      blockAddr := RoundDown(addr, blockSize);
    }

    /** The flash after the gathered bytes have been written out. */
    method FlushGathered() returns (err: Err)
      requires flash.Ready() && flash.current.Some? && buffer != flash.verifyBuf && SetUp() && !empty
      modifies flash`lastFunc, flash`state, flash.verifyBuf, flash.swd, T()
      ensures flash.Valid() && (old(T().noisy) ==> T().noisy) && old(T().log) <= T().log
      ensures err.NONE? ==> flash.Ready()
      ensures T().phase.failed == old(T().phase.failed)
      ensures Sound(Chip(), old(Abs()))
      ensures err.NONE? && !T().noisy ==> T().Flash() == Commit(Chip(), old(Abs())).flash
      ensures !T().noisy && Commit(Chip(), old(Abs())).flash == old(Abs()).flash ==>
                && T().Flash() == old(T().Flash()) && T().phase.calls == old(T().phase.calls)
                && flash.lastFunc == old(flash.lastFunc)
      ensures !T().noisy && T().erases ==> T().phase.blank == old(T().phase.blank)
      ensures InBlock() && SameAround(old(T().Flash()), T().Flash(), Offset(), blockSize)
      ensures T().reliable ==> T().noisy == old(T().noisy) && (!T().noisy ==> err.NONE?)
      ensures !flash.lastFunc.Nop? ==> T().phase.releases == old(T().phase.releases)
      ensures !err.UNINIT?
    {
      hide Commit, SameAround, DebugTarget.Scan, Describes, IsSector, RoundDown, ValidChip;
      hide Ran, RanAll;
      hide PageUses, DebugTarget.Blank;
      ghost var f := T().Flash();
      SectorFits(Chip(), sectorAddr, blockSize);
      CommitBlock(Chip(), f, sectorAddr, buffer[..]);
      err := CompareFlush();
      FlushedBlock(f, T().Flash(), Offset(), buffer[..]);
    }

    /** Fills the block with 0xFF. */
    method Clear()
      requires blockSize <= buffer.Length
      modifies buffer
      ensures forall i :: 0 <= i < buffer.Length ==> buffer[i] == if i < blockSize then ERASED else old(buffer[i])
    {
      for i := 0 to blockSize
        invariant forall j :: 0 <= j < buffer.Length ==> buffer[j] == if j < i then ERASED else old(buffer[j])
      {
        buffer[i] := ERASED;
      }
    }

    /** Takes up the sector of `addr`. Nothing may be gathered when this is called. */
    method SetupNextSector(addr: u32) returns (err: Err)
      requires flash.Ready() && buffer != flash.verifyBuf && blockSize <= buffer.Length && empty
      requires blockSize > 0 ==> buffer.Length == blockSize
      requires addr < Chip().limit
      requires Spares()
      modifies `sectorAddr, `sectorSize, `blockAddr, `blockSize, `buffer, buffer
      modifies flash`startAddr, flash`lastFunc, flash`current, flash`state, flash.swd, T()
      ensures flash.Valid() && (old(T().noisy) ==> T().noisy) && old(T().log) <= T().log
      ensures buffer == old(buffer) || fresh(buffer)
      ensures buffer != flash.verifyBuf && blockSize <= buffer.Length
      ensures err.NONE? ==>
                && flash.Ready() && flash.Selected(sectorAddr) && InFlash(Chip(), addr)
                && SetUp() && blockAddr == sectorAddr <= addr < sectorAddr + sectorSize
      ensures T().Flash() == old(T().Flash())
      ensures T().phase.failed == old(T().phase.failed) && T().phase.blank == old(T().phase.blank)
      ensures old(flash.lastFunc.Nop?) ==> flash.lastFunc.Nop? && T().phase.calls == old(T().phase.calls)
      ensures Spares()
      ensures T().reliable ==> T().noisy == old(T().noisy) && (InFlash(Chip(), addr) && flash.Served() ==> err.NONE?)
      ensures err.INTERNAL? <==> !InFlash(Chip(), addr)
      ensures err.INTERNAL? ==> T().log == old(T().log)
      ensures !err.NONE? && !err.INTERNAL? ==> HandedBack(T().log) && err in {ALGO_MISSING, UNINIT, ALGO_DL}
    {
      hide Kept, Touches, DebugTarget.Scan, Sorted, Aligned, DebugTarget.Resident, Placed;
      if InFlash(Chip(), addr) { SectorGeometry(Chip(), addr); }
      var minSize := flash.ProgramPageMinSize(addr);
      var size := flash.EraseSectorSize(addr);
      if minSize == 0 || size == 0 { return INTERNAL; }
      BelowTable(Chip(), addr);
      Adopt(addr, size);
      err := Select();
      if !err.NONE? { return; }
      Clear();
    }

    /** Selects the algorithm of the sector; a failure ends the session on the target. */
    method Select() returns (err: Err)
      requires flash.Ready() && Spares()
      modifies flash`startAddr, flash`lastFunc, flash`current, flash`state, flash.swd, T()
      ensures flash.Valid() && (old(T().noisy) ==> T().noisy) && old(T().log) <= T().log
      ensures err.NONE? ==> flash.Ready() && flash.Selected(sectorAddr)
      ensures T().Flash() == old(T().Flash())
      ensures T().phase.failed == old(T().phase.failed) && T().phase.blank == old(T().phase.blank)
      ensures old(flash.lastFunc.Nop?) ==> flash.lastFunc.Nop? && T().phase.calls == old(T().phase.calls)
      ensures Spares()
      ensures T().reliable ==> T().noisy == old(T().noisy)
      ensures T().reliable && InFlash(Chip(), sectorAddr) && flash.Served() ==> err.NONE?
      ensures err in {NONE, ALGO_MISSING, UNINIT, ALGO_DL} && (err.NONE? || HandedBack(T().log))
    {
      hide Kept, Touches, DebugTarget.Scan, Sorted, Aligned, DebugTarget.Resident, Placed;
      err := flash.AlgoSet(sectorAddr);
      if !err.NONE? {
        var status := flash.FlashUninit();
      }
    }

    /** Notes the sector of `addr`; a new buffer if the size has changed. */
    method Adopt(addr: u32, size: u32)
      requires ValidChip(Chip()) && InFlash(Chip(), addr) && SizeAt(Chip(), addr) == size
      requires buffer != flash.verifyBuf && blockSize <= buffer.Length
      requires blockSize > 0 ==> buffer.Length == blockSize
      modifies `sectorAddr, `sectorSize, `blockAddr, `blockSize, `buffer
      ensures buffer == old(buffer) || fresh(buffer)
      ensures buffer != flash.verifyBuf
      ensures sectorSize == blockSize == buffer.Length == size && IsSector(Chip(), sectorAddr, size)
      ensures blockAddr == sectorAddr <= addr < sectorAddr + sectorSize
    {
      SectorStart(Chip(), addr);
      SectorGeometry(Chip(), addr);
      sectorAddr := RoundDown(addr, size);
      sectorSize := size;
      blockAddr := sectorAddr;
      if blockSize != sectorSize {
        buffer := new byte[sectorSize];
        blockSize := sectorSize;
      }
    }

    /** Nothing is gathered and no sector is set up. */
    method Forget()
      modifies `empty, `sectorValid, `blockAddr, `blockSize, `sectorAddr, `sectorSize, `lastAddr
      ensures empty && !sectorValid && blockAddr == blockSize == sectorAddr == sectorSize == lastAddr == 0
    {
      empty, sectorValid := true, false;
      blockAddr, blockSize, sectorAddr, sectorSize, lastAddr := 0, 0, 0, 0, 0;
    }

    /** Contents are promised again, whatever was misread before. */
    ghost method BeginSession()
      requires T().Valid() && empty
      modifies `start, `session, `began, T()`noisy
      ensures start == T().Flash() && session == [] && began == T().phase.calls && Spares() && !T().noisy
    {
      T().noisy := false;
      start, session, began := T().Flash(), [], T().phase.calls;
      BaseBelowLimit(Chip());
      KeptSame(Chip(), start, []);
    }

    /** Opens a session: nothing gathered, the flash as it was. */
    method Init(config: Config) returns (err: Err)
      requires Valid() && Describes(config, Chip())
      modifies this, flash`cfg, flash`lastFunc, flash`current, flash`state, flash`defaultRegion, flash.swd, T()
      ensures Valid() && buffer == old(buffer) && old(T().log) <= T().log
      ensures !old(state.Closed?) ==>
                err.INTERNAL? && state == old(state) && T().log == old(T().log) && T().noisy == old(T().noisy)
      ensures old(state.Closed?) ==> if err.NONE? then state.Open? else state.Closed?
      ensures old(state.Closed?) && err.NONE? ==> Abs() == Store(old(T().Flash()), Idle) && flash.lastFunc.Nop?
      ensures T().Flash() == old(T().Flash())
      ensures T().phase.calls == old(T().phase.calls) && T().phase.blank == old(T().phase.blank)
      ensures old(state.Closed?) ==> start == old(T().Flash()) && session == [] && began == old(T().phase.calls)
      ensures !old(state.Closed?) ==> start == old(start) && session == old(session) && began == old(began)
      ensures old(state.Closed?) && err.NONE? ==> Gathered()
      ensures err.NONE? && Serves(Chip(), config.regions, FirstDefault(config.regions)) ==> flash.Served()
      ensures T().reliable && old(state.Closed?) ==> err.NONE? && !T().noisy
    {
      hide Kept, Touches, DebugTarget.Scan;
      BaseBelowLimit(Chip());
      if !state.Closed? { return INTERNAL; }
      Forget();
      BeginSession();
      err := flash.FlashInit(config);
      if !err.NONE? { return; }
      state := Open;
    }

    /** Closes the session: what is still gathered is written out and the open function is closed, whatever went
        wrong before. Only then is the target released: not if the UnInit fails. */
    method Uninit() returns (err: Err)
      requires Valid()
      modifies this, buffer, flash`lastFunc, flash`state, flash.verifyBuf, flash.swd, T()
      ensures Valid() && state.Closed? && buffer == old(buffer)
      ensures (old(T().noisy) ==> T().noisy) && old(T().log) <= T().log
      ensures old(state.Closed?) ==> err.INTERNAL? && T().log == old(T().log)
      ensures !old(state.Open?) ==> T().Flash() == old(T().Flash())
      ensures old(state.Open? && !sectorValid) ==> !err.NONE?
      ensures !old(state.Closed?) && !err.UNINIT? ==> T().log != [] && T().log[|T().log| - 1] == DebugTarget.Run
      ensures T().phase.failed == old(T().phase.failed)
      ensures old(state.Open?) ==> old(Sound(Chip(), Abs()))
      ensures old(state.Open?) && err.NONE? && !T().noisy ==> T().Flash() == old(Commit(Chip(), Abs()).flash)
      ensures old(state.Open?) && !T().noisy && old(Commit(Chip(), Abs()).flash == Abs().flash) ==>
                && T().Flash() == old(T().Flash())
                && (old(flash.lastFunc.Nop?) ==> T().phase.calls == old(T().phase.calls))
      ensures !T().noisy && T().erases ==> T().phase.blank == old(T().phase.blank)
      ensures start == old(start) && session == old(session) && began == old(began)
      ensures old(state.Open?) ==> OnlyOpen(Chip(), old(Abs()), T().Flash())
      ensures T().reliable ==> T().noisy == old(T().noisy)
      ensures T().reliable && !T().noisy && old(state.Open? && sectorValid) ==> err.NONE?
      ensures err.UNINIT? ==>
                && Session.Unreleased(T().log[|old(T().log)|..]) && !flash.lastFunc.Nop? && T().log != []
                && flash.OpensOrCloses(T().log[|T().log| - 1], Nop, false)
    {
      hide OnlyOpen, Commit, RoundDown, Session.Unreleased, Session.Silent, Sound;
      hide Kept, Touches, DebugTarget.Scan, Describes, Sorted, Aligned, DebugTarget.Resident, Serves, Placed;
      hide TargetFlash.Valid, TargetFlash.OpensOrCloses, Consistent, Abs;
      if state.Closed? { return INTERNAL; }
      ghost var before := T().log;
      var written := NONE;
      if state.Open? {
        written := WriteOut();
      }
      var closed := LetGo();
      Session.CountersTell(Chip(), before, T().log);
      return if closed.NONE? then written else closed;
    }

    /** Flushes what is gathered. */
    method WriteOut() returns (err: Err)
      requires Valid() && state.Open?
      modifies `empty, `blockAddr, buffer, flash`lastFunc, flash`state, flash.verifyBuf, flash.swd, T()
      ensures flash.Valid() && (old(T().noisy) ==> T().noisy) && old(T().log) <= T().log
      ensures Spares()
      ensures !sectorValid ==> !err.NONE?
      ensures old(Sound(Chip(), Abs()))
      ensures err.NONE? && !T().noisy ==> T().Flash() == old(Commit(Chip(), Abs()).flash)
      ensures !T().noisy && old(Commit(Chip(), Abs()).flash == Abs().flash) ==>
                && T().Flash() == old(T().Flash()) && T().phase.calls == old(T().phase.calls)
                && flash.lastFunc == old(flash.lastFunc)
      ensures !T().noisy && T().erases ==> T().phase.blank == old(T().phase.blank)
      ensures OnlyOpen(Chip(), old(Abs()), T().Flash())
      ensures T().reliable ==> T().noisy == old(T().noisy) && (!T().noisy && sectorValid ==> err.NONE?)
      ensures !flash.lastFunc.Nop? ==> T().phase.releases == old(T().phase.releases)
      ensures !err.UNINIT? && T().phase.failed == old(T().phase.failed)
    {
      hide OnlyOpen, Commit, RoundDown;
      hide Kept, Touches, DebugTarget.Scan, Describes, Sorted, Aligned, DebugTarget.Resident, Serves, Placed;
      BaseBelowLimit(Chip());
      err := FlushCurrentBlock(0);
    }

    /** Closes the function and releases the target; whether that works or not, the session is over. */
    method LetGo() returns (err: Err)
      requires flash.Valid() && buffer != flash.verifyBuf && Spares()
      modifies `empty, `sectorValid, `blockAddr, `blockSize, `sectorAddr, `sectorSize, `lastAddr, `state
      modifies flash`lastFunc, flash`state, flash.swd, T()
      ensures Valid() && state.Closed? && (old(T().noisy) ==> T().noisy) && old(T().log) <= T().log
      ensures T().Flash() == old(T().Flash()) && T().phase.blank == old(T().phase.blank)
      ensures T().phase.failed == old(T().phase.failed)
      ensures err in {NONE, UNINIT, FAILURE} && (err.FAILURE? ==> flash.cfg.None?)
      ensures err.NONE? ==> T().log != [] && T().log[|T().log| - 1] == DebugTarget.Run
      ensures err.UNINIT? ==>
                && T().phase.releases == old(T().phase.releases) && !old(flash.lastFunc.Nop?) && !flash.lastFunc.Nop?
                && T().log != [] && flash.OpensOrCloses(T().log[|T().log| - 1], Nop, false)
      ensures old(flash.lastFunc.Nop?) ==> T().phase.calls == old(T().phase.calls)
      ensures T().reliable ==> T().noisy == old(T().noisy) && (flash.cfg.Some? ==> err.NONE?)
    {
      hide Kept, Touches, DebugTarget.Scan, Describes, Sorted, Aligned, DebugTarget.Resident, Serves, Placed;
      err := flash.FlashUninit();
      Forget();
      state := Closed;
    }

    /** Fails for good: until the next session nothing more is erased or programmed. */
    method Fail()
      requires flash.Valid() && flash.cfg.Some? && buffer != flash.verifyBuf && blockSize <= buffer.Length
      requires Spares()
      modifies `state, T()`log, T()`phase
      ensures Valid() && state.Error? && old(T().log) <= T().log
      ensures T().phase == old(T().phase).(failed := true)
    {
      state := FlashState.Error;
      T().Record(DebugTarget.WriteError);
    }

    /** The position `p` is in the block, or just behind a block that may hold gathered bytes. */
    ghost predicate At(p: nat)
      requires ValidChip(Chip())
      reads this, buffer
    {
      && SetUp()
      && blockAddr <= p
      && (p < blockAddr + blockSize || (p == blockAddr + blockSize && blockAddr == sectorAddr))
    }

    /** What the accessor stands for at position `p`: behind the last byte of the sector the bytes count as
        committed, although they are still gathered. */
    ghost function Pending(p: nat): Store
      requires T().Valid() && SetUp()
      reads this, buffer, T()
    {
      AbsSound();
      if !empty && p == blockAddr + blockSize then Commit(Chip(), Abs()) else Abs()
    }

    /** The driver is ready, and an algorithm is selected. */
    ghost predicate Ready()
      reads this, flash, flash.swd, T()
    {
      flash.Ready() && flash.Selected(sectorAddr) && sectorValid
    }

    /** Brings the accessor to the address: sets up the first sector, or leaves the block and the sector if
        the address is in another one. */
    method MoveTo(addr: u32) returns (err: Err)
      requires Valid() && state.Open? && addr < Chip().limit
      requires Spares()
      modifies `sectorValid, `lastAddr, `sectorAddr, `sectorSize, `blockAddr, `blockSize, `empty, `buffer, buffer
      modifies flash`startAddr, flash`lastFunc, flash`current, flash`state, flash.verifyBuf, flash.swd, T()
      ensures flash.Valid() && (old(T().noisy) ==> T().noisy) && old(T().log) <= T().log
      ensures buffer == old(buffer) || fresh(buffer)
      ensures buffer != flash.verifyBuf && blockSize <= buffer.Length
      ensures T().phase.failed == old(T().phase.failed)
      ensures err.NONE? ==> Ready() && At(addr) && addr < blockAddr + blockSize && InFlash(Chip(), addr)
      ensures err.NONE? && !T().noisy ==>
                old(Sound(Chip(), Abs())) && Abs() == Leave(Chip(), old(Abs()), addr)
      ensures err.NONE? && !T().noisy && old(flash.lastFunc.Nop?)
              && Leave(Chip(), old(Abs()), addr).flash == old(Abs()).flash ==>
                T().phase.calls == old(T().phase.calls) && flash.lastFunc.Nop?
      ensures !T().noisy && T().erases ==> T().phase.blank == old(T().phase.blank)
      ensures Spares()
      ensures T().reliable ==> T().noisy == old(T().noisy)
      ensures T().reliable && !T().noisy && InFlash(Chip(), addr) && flash.Served() ==> err.NONE?
    {
      hide OnlyOpen;
      hide Kept, Touches, DebugTarget.Scan, Describes, Sorted, Aligned, DebugTarget.Resident, Serves, Placed;
      if !sectorValid {
        err := SetupNextSector(addr);
        if !err.NONE? { return; }
        sectorValid := true;
        lastAddr := addr;
        BlockAligned(Chip(), sectorAddr, blockSize, blockAddr, addr);
      } else {
        err := Change(addr);
      }
    }

    method Change(addr: u32) returns (err: Err)
      requires Ready() && Consistent() && buffer != flash.verifyBuf && addr < Chip().limit
      requires Spares()
      modifies `sectorAddr, `sectorSize, `blockAddr, `blockSize, `empty, `buffer, buffer
      modifies flash`startAddr, flash`lastFunc, flash`current, flash`state, flash.verifyBuf, flash.swd, T()
      ensures flash.Valid() && (old(T().noisy) ==> T().noisy) && old(T().log) <= T().log
      ensures buffer == old(buffer) || fresh(buffer)
      ensures buffer != flash.verifyBuf && blockSize <= buffer.Length
      ensures T().phase.failed == old(T().phase.failed)
      ensures err.NONE? ==> Ready() && At(addr) && addr < blockAddr + blockSize && InFlash(Chip(), addr)
      ensures err.NONE? && !T().noisy ==>
                old(Sound(Chip(), Abs())) && Abs() == Leave(Chip(), old(Abs()), addr)
      ensures err.NONE? && !T().noisy && old(flash.lastFunc.Nop?)
              && Leave(Chip(), old(Abs()), addr).flash == old(Abs()).flash ==>
                T().phase.calls == old(T().phase.calls) && flash.lastFunc.Nop?
      ensures !T().noisy && T().erases ==> T().phase.blank == old(T().phase.blank)
      ensures Spares()
      ensures T().reliable ==> T().noisy == old(T().noisy)
      ensures T().reliable && !T().noisy && InFlash(Chip(), addr) && flash.Served() ==> err.NONE?
    {
      hide OnlyOpen;
      hide Commit, Describes, DebugTarget.Scan, IsSector, RoundDown, Kept, Touches, Sorted, Aligned;
      hide DebugTarget.Resident, Serves, Placed;
      hide TargetFlash.Valid;
      BlockAligned(Chip(), sectorAddr, blockSize, blockAddr, addr);
      LeaveCase(Chip(), Abs(), addr);
      err := NONE;
      if RoundDown(addr, blockSize) != RoundDown(lastAddr, blockSize) {
        err := FlushCurrentBlock(addr);
        if !err.NONE? { return; }
      }
      if RoundDown(addr, sectorSize) != RoundDown(lastAddr, sectorSize) {
        err := SetupNextSector(addr);
      }
    }

    /** Flushes a block that the position has passed. */
    method Settle(p: u32) returns (err: Err)
      requires Ready() && At(p) && buffer != flash.verifyBuf
      requires Spares()
      modifies `empty, `blockAddr, buffer, flash`lastFunc, flash`state, flash.verifyBuf, flash.swd, T()
      ensures flash.Valid() && (old(T().noisy) ==> T().noisy) && old(T().log) <= T().log
      ensures T().phase.failed == old(T().phase.failed)
      ensures err.NONE? ==> Ready() && At(p) && p < blockAddr + blockSize
      ensures err.NONE? && !T().noisy ==> Abs() == old(Pending(p))
      ensures err.NONE? && !T().noisy && old(flash.lastFunc.Nop?) && old(Pending(p).flash == Abs().flash) ==>
                T().phase.calls == old(T().phase.calls) && flash.lastFunc.Nop?
      ensures !T().noisy && T().erases ==> T().phase.blank == old(T().phase.blank)
      ensures Spares()
      ensures T().reliable ==> T().noisy == old(T().noisy) && (!T().noisy ==> err.NONE?)
    {
      hide OnlyOpen;
      hide Commit, Describes, DebugTarget.Scan, IsSector, RoundDown, Kept, Touches, Sorted, Aligned;
      hide DebugTarget.Resident, Serves, Placed;
      BlockAligned(Chip(), sectorAddr, blockSize, blockAddr, p);
      BlockAligned(Chip(), sectorAddr, blockSize, sectorAddr + blockSize, p);
      AbsSound();
      LeaveCase(Chip(), Abs(), 0);
      err := NONE;
      if p >= Wrap(blockAddr + blockSize) {
        err := FlushCurrentBlock(p);
      }
    }

    /** Sets up the next sector if the position has passed the current one. */
    method Enter(p: u32) returns (err: Err)
      requires Ready() && At(p) && p < blockAddr + blockSize && p < Chip().limit && buffer != flash.verifyBuf
      requires Spares()
      modifies `sectorAddr, `sectorSize, `blockAddr, `blockSize, `buffer, buffer
      modifies flash`startAddr, flash`lastFunc, flash`current, flash`state, flash.swd, T()
      ensures flash.Valid() && (old(T().noisy) ==> T().noisy) && old(T().log) <= T().log
      ensures buffer == old(buffer) || fresh(buffer)
      ensures buffer != flash.verifyBuf && blockSize <= buffer.Length
      ensures T().phase.failed == old(T().phase.failed) && T().phase.blank == old(T().phase.blank)
      ensures err.NONE? ==> Ready() && SetUp() && blockAddr == sectorAddr <= p < sectorAddr + sectorSize
      ensures err.NONE? ==> Abs() == old(Abs())
      ensures old(flash.lastFunc.Nop?) ==> T().phase.calls == old(T().phase.calls) && flash.lastFunc.Nop?
      ensures Spares()
      ensures T().reliable ==> T().noisy == old(T().noisy) && (flash.Served() ==> err.NONE?)
    {
      hide Commit, Describes, DebugTarget.Scan, IsSector, RoundDown, Kept, Touches, Sorted, Aligned;
      hide DebugTarget.Resident, Serves, Placed;
      SectorFits(Chip(), sectorAddr, blockSize);
      err := NONE;
      if p >= Wrap(sectorAddr + sectorSize) {
        err := SetupNextSector(p);
      }
    }

    /** Gathers bytes at position `p`. */
    method Copy(p: u32, piece: seq<byte>)
      requires T().Valid() && SetUp() && piece != []
      requires blockAddr == sectorAddr <= p && p + |piece| <= blockAddr + blockSize
      requires Spares()
      requires InFlash(Chip(), sectorAddr) && Touches(Chip(), session, sectorAddr)
      modifies `empty, buffer
      ensures SetUp() && !empty && At(p + |piece|)
      ensures Abs().flash == old(Abs()).flash
      ensures Sound(Chip(), old(Abs())) && Base(Chip()) <= p && p + |piece| <= Chip().limit
      ensures Pending(p + |piece|) == PutAll(Chip(), old(Abs()), Cells(p, piece))
      ensures Spares()
    {
      hide ValidChip, Commit, IsSector, DebugTarget.Scan, Kept, Touches, PutAll, Gather, RoundDown;
      AbsSound();
      SectorFits(Chip(), sectorAddr, blockSize);
      GatherIs(Chip(), Abs(), sectorAddr, buffer[..], p);
      ghost var m, d := Abs(), buffer[..];
      Lay(p - blockAddr, piece);
      empty := false;
      PutAllGathered(Chip(), m, Cells(p, piece));
      PutOpen(Chip(), Store(m.flash, Opened(sectorAddr, d)), p, piece);
    }

    method Lay(start: nat, piece: seq<byte>)
      requires start + |piece| <= buffer.Length
      modifies buffer
      ensures buffer[..] == Overlay(old(buffer[..]), start, piece)
    {
      ghost var d := buffer[..];
      for i := 0 to |piece|
        invariant buffer[..] == Overlay(d, start, piece[..i])
      {
        OverlayNext(d, start, piece, i);
        buffer[start + i] := piece[i];
      }
      assert piece[..|piece|] == piece;
    }

    /** The first `k` bytes of a write that found the store `m0` have been put; and if `idle`, and every byte
        finds the flash as it leaves it, nothing has run on the target since `calls`. */
    ghost predicate HasPut(addr: u32, data: seq<byte>, k: nat, m0: Store, idle: bool, calls: nat)
      requires T().Valid() && ValidChip(Chip())
      reads this, buffer, flash, T()
    {
      && k <= |data| && Sound(Chip(), m0) && Base(Chip()) <= addr && addr + |data| <= Chip().limit
      && At(addr + k)
      && (!T().noisy ==>
            && Pending(addr + k) == PutAll(Chip(), m0, Cells(addr, data[..k]))
            && (idle && Quiet(Chip(), m0, Cells(addr, data)) ==>
                  T().phase.calls == calls && flash.lastFunc.Nop? && Pending(addr + k).flash == Abs().flash))
    }

    /** Gathers `data` from position `addr` on, flushing and changing sectors as it goes. */
    method Gathering(addr: u32, data: seq<byte>) returns (err: Err)
      requires Ready() && At(addr) && addr < blockAddr + blockSize && buffer != flash.verifyBuf
      requires InFlash(Chip(), addr) && addr + |data| <= Chip().limit
      requires Spares()
      requires Owed(addr, data)
      modifies `lastAddr, `sectorAddr, `sectorSize, `blockAddr, `blockSize, `empty, `buffer, buffer
      modifies flash`startAddr, flash`lastFunc, flash`current, flash`state, flash.verifyBuf, flash.swd, T()
      ensures flash.Valid() && (old(T().noisy) ==> T().noisy) && old(T().log) <= T().log
      ensures buffer == old(buffer) || fresh(buffer)
      ensures buffer != flash.verifyBuf && blockSize <= buffer.Length
      ensures T().phase.failed == old(T().phase.failed)
      ensures err.NONE? ==> Ready() && Consistent()
      ensures Sound(Chip(), old(Abs()))
      ensures err.NONE? && !T().noisy ==> Abs() == PutAll(Chip(), old(Abs()), Cells(addr, data))
      ensures err.NONE? && !T().noisy && old(flash.lastFunc.Nop?) && Quiet(Chip(), old(Abs()), Cells(addr, data)) ==>
                T().phase.calls == old(T().phase.calls) && flash.lastFunc.Nop?
      ensures !T().noisy && T().erases ==> T().phase.blank == old(T().phase.blank)
      ensures Spares()
      ensures T().reliable ==> T().noisy == old(T().noisy) && (!T().noisy && flash.Served() ==> err.NONE?)
    {
      hide Commit, Describes, DebugTarget.Scan, Quiet, Sound, IsSector, RoundDown, PutAll, Kept, Touches;
      hide Sorted, Aligned, DebugTarget.Resident, Serves, Placed;
      hide TargetFlash.Served, TargetFlash.Selected, Erased;
      AbsSound();
      ghost var m0, calls, idle := Abs(), T().phase.calls, flash.lastFunc.Nop?;
      PutNothing(Chip(), m0, addr, data);
      var k, done := 0, false;
      err := NONE;
      while !done
        invariant err.NONE? && Ready() && HasPut(addr, data, k, m0, idle, calls)
        invariant buffer != flash.verifyBuf && Spares()
        invariant done ==>
                  k == |data| && addr + k < blockAddr + blockSize && (!T().noisy ==> Abs() == Pending(addr + k))
        invariant buffer == old(buffer) || fresh(buffer)
        invariant (old(T().noisy) ==> T().noisy) && old(T().log) <= T().log
        invariant T().reliable ==> T().noisy == old(T().noisy)
        invariant T().phase.failed == old(T().phase.failed)
        invariant !T().noisy && T().erases ==> T().phase.blank == old(T().phase.blank)
        decreases |data| - k, !done
      {
        var n;
        err, n, done := Round(addr, data, k, m0, calls, idle);
        if !err.NONE? { return; }
        k := k + n;
      }
      assert data[..k] == data;
      Arrive(addr + k);
    }

    /** One round of the loop: flush if need be; stop at the end of the data; else gather some more. */
    method Round(addr: u32, data: seq<byte>, k: nat, ghost m0: Store, ghost calls: nat, ghost idle: bool)
      returns (err: Err, n: nat, done: bool)
      requires Ready() && HasPut(addr, data, k, m0, idle, calls) && buffer != flash.verifyBuf
      requires Spares()
      requires Owed(addr, data)
      modifies `sectorAddr, `sectorSize, `blockAddr, `blockSize, `empty, `buffer, buffer
      modifies flash`startAddr, flash`lastFunc, flash`current, flash`state, flash.verifyBuf, flash.swd, T()
      ensures flash.Valid() && (old(T().noisy) ==> T().noisy) && old(T().log) <= T().log
      ensures buffer == old(buffer) || fresh(buffer)
      ensures buffer != flash.verifyBuf && blockSize <= buffer.Length
      ensures T().phase.failed == old(T().phase.failed)
      ensures err.NONE? ==> Ready() && HasPut(addr, data, k + n, m0, idle, calls) && (done || n > 0)
      ensures err.NONE? && done ==>
                k == |data| && n == 0 && addr + k < blockAddr + blockSize && Abs() == Pending(addr + k)
      ensures !T().noisy && T().erases ==> T().phase.blank == old(T().phase.blank)
      ensures Spares()
      ensures T().reliable ==> T().noisy == old(T().noisy) && (!T().noisy && flash.Served() ==> err.NONE?)
    {
      hide Commit, Describes, DebugTarget.Scan, Quiet, Sound, IsSector, RoundDown, PutAll, Kept, Touches;
      hide Sorted, Aligned, DebugTarget.Resident, Serves, Placed;
      n, done := 0, false;
      err := Settle(addr + k);
      if !err.NONE? { return; }
      if |data| - k == 0 {
        done := true;
      } else {
        err, n := Advance(addr, data, k, m0);
      }
    }

    /** Notes where the next write is expected. */
    method Arrive(p: u32)
      requires Ready() && At(p) && p < blockAddr + blockSize && p <= Chip().limit
      modifies `lastAddr
      ensures lastAddr == p && Ready() && Consistent()
    {
      lastAddr := p;
      BlockAligned(Chip(), sectorAddr, blockSize, blockAddr, p);
    }

    /** One round: enters the sector of the next byte and gathers as much as fits into it. */
    method Advance(addr: u32, data: seq<byte>, k: nat, ghost m0: Store) returns (err: Err, n: nat)
      requires k < |data| && addr + |data| <= Chip().limit
      requires Ready() && At(addr + k) && addr + k < blockAddr + blockSize && buffer != flash.verifyBuf
      requires Sound(Chip(), m0) && Base(Chip()) <= addr
      requires !T().noisy ==> Abs() == PutAll(Chip(), m0, Cells(addr, data[..k]))
      requires Spares()
      requires Owed(addr, data)
      modifies `sectorAddr, `sectorSize, `blockAddr, `blockSize, `empty, `buffer, buffer
      modifies flash`startAddr, flash`lastFunc, flash`current, flash`state, flash.swd, T()
      ensures flash.Valid() && (old(T().noisy) ==> T().noisy) && old(T().log) <= T().log
      ensures buffer == old(buffer) || fresh(buffer)
      ensures buffer != flash.verifyBuf && blockSize <= buffer.Length
      ensures T().phase.failed == old(T().phase.failed) && T().phase.blank == old(T().phase.blank)
      ensures err.NONE? ==> 0 < n <= |data| - k && Ready() && At(addr + k + n)
      ensures err.NONE? && !T().noisy ==> Pending(addr + k + n) == PutAll(Chip(), m0, Cells(addr, data[..k + n]))
      ensures old(flash.lastFunc.Nop?) ==> T().phase.calls == old(T().phase.calls) && flash.lastFunc.Nop?
      ensures err.NONE? && !T().noisy && Quiet(Chip(), m0, Cells(addr, data)) ==>
                Pending(addr + k + n).flash == Abs().flash
      ensures Spares()
      ensures T().reliable ==> T().noisy == old(T().noisy) && (flash.Served() ==> err.NONE?)
    {
      hide PutAll, Quiet, Sound, Commit, Describes, DebugTarget.Scan, IsSector, RoundDown, Kept, Touches;
      hide Sorted, Aligned, DebugTarget.Resident, Serves, Placed;
      n := 0;
      err := Enter(addr + k);
      if !err.NONE? { return; }
      var left := blockSize - (addr + k - blockAddr);
      n := if |data| - k < left then |data| - k else left;
      PieceAppended(Chip(), m0, addr, data, k, n);
      SectorTouched(Chip(), session, Cell(addr + k, data[k]), sectorAddr, blockSize);
      Copy(addr + k, data[k..k + n]);
    }

    /** The session has been asked to write these bytes. */
    ghost predicate Owed(addr: u32, data: seq<byte>)
      reads `session
    {
      addr + |data| <= ADDRESS_SPACE && forall i :: 0 <= i < |data| ==> Cell(addr + i, data[i]) in session
    }

    ghost method Note(addr: u32, data: seq<byte>)
      requires Spares() && addr + |data| <= ADDRESS_SPACE
      modifies `session
      ensures session == old(session) + Cells(addr, data) && Spares() && Owed(addr, data)
    {
      ghost var was := session;
      session := session + Cells(addr, data);
      KeptMore(Chip(), start, T().Flash(), was, session);
      if !empty { TouchesMore(Chip(), was, session, sectorAddr); }
      forall i | 0 <= i < |data| ensures Cell(addr + i, data[i]) in session {
        assert session[|was| + i] == Cell(addr + i, data[i]);
      }
    }

    /** Writes `data` at `addr`. On success the accessor stands for the byte-at-a-time model after the same
        write; on failure nothing more will be erased or programmed in this session. */
    method Write(addr: u32, data: seq<byte>) returns (err: Err)
      requires Valid() && addr < Chip().limit && addr + |data| <= Chip().limit
      modifies this, buffer
      modifies flash`startAddr, flash`lastFunc, flash`current, flash`state, flash.verifyBuf, flash.swd, T()
      ensures Valid() && (old(T().noisy) ==> T().noisy) && old(T().log) <= T().log
      ensures buffer == old(buffer) || fresh(buffer)
      ensures !old(state.Open?) ==>
                err.INTERNAL? && state == old(state) && T().log == old(T().log) && T().Flash() == old(T().Flash())
      ensures old(state.Open?) ==> if err.NONE? then state.Open? else state.Error?
      ensures err.NONE? ==> old(state.Open?) && sectorValid && Base(Chip()) <= addr
      ensures err.NONE? && !T().noisy ==>
                old(Sound(Chip(), Abs())) && Abs() == WriteAt(Chip(), old(Abs()), addr, data)
      ensures err.NONE? && !T().noisy && old(flash.lastFunc.Nop?) && QuietWrite(Chip(), old(Abs()), addr, data) ==>
                T().phase.calls == old(T().phase.calls) && flash.lastFunc.Nop?
      ensures !T().noisy && T().erases ==> T().phase.blank == old(T().phase.blank)
      ensures start == old(start) && began == old(began)
      ensures session == if old(state.Open?) then old(session) + Cells(addr, data) else old(session)
      ensures T().reliable ==> T().noisy == old(T().noisy)
      ensures T().reliable && !T().noisy && old(state.Open?) && InFlash(Chip(), addr) && flash.Served() ==> err.NONE?
    {
      hide Sound, OnlyOpen, WriteAt, QuietWrite;
      hide Commit, Describes, DebugTarget.Scan, Quiet, IsSector, RoundDown, PutAll, Kept, Touches, Sorted;
      hide Aligned, DebugTarget.Resident, Serves, Placed;
      if !state.Open? { return INTERNAL; }
      Note(addr, data);
      err := Take(addr, data);
      if !err.NONE? {
        Fail();
      }
    }

    /** Moves to the address and gathers the bytes there. */
    method Take(addr: u32, data: seq<byte>) returns (err: Err)
      requires Valid() && state.Open? && addr < Chip().limit && addr + |data| <= Chip().limit
      requires Owed(addr, data)
      modifies `sectorValid, `lastAddr, `sectorAddr, `sectorSize, `blockAddr, `blockSize, `empty, `buffer, buffer
      modifies flash`startAddr, flash`lastFunc, flash`current, flash`state, flash.verifyBuf, flash.swd, T()
      ensures flash.Valid() && (old(T().noisy) ==> T().noisy) && old(T().log) <= T().log
      ensures buffer == old(buffer) || fresh(buffer)
      ensures buffer != flash.verifyBuf && blockSize <= buffer.Length
      ensures T().phase.failed == old(T().phase.failed)
      ensures err.NONE? ==> Ready() && Consistent() && Base(Chip()) <= addr
      ensures err.NONE? && !T().noisy ==>
                old(Sound(Chip(), Abs())) && Abs() == WriteAt(Chip(), old(Abs()), addr, data)
      ensures err.NONE? && !T().noisy && old(flash.lastFunc.Nop?) && QuietWrite(Chip(), old(Abs()), addr, data) ==>
                T().phase.calls == old(T().phase.calls) && flash.lastFunc.Nop?
      ensures !T().noisy && T().erases ==> T().phase.blank == old(T().phase.blank)
      ensures Spares()
      ensures T().reliable ==> T().noisy == old(T().noisy)
      ensures T().reliable && !T().noisy && InFlash(Chip(), addr) && flash.Served() ==> err.NONE?
    {
      hide Sound, OnlyOpen;
      hide Commit, Describes, DebugTarget.Scan, Quiet, IsSector, RoundDown, PutAll, Kept, Touches, Sorted;
      hide Aligned, DebugTarget.Resident, Serves, Placed;
      err := MoveTo(addr);
      if err.NONE? {
        err := Gathering(addr, data);
      }
    }
  }

  lemma SectorTouched(c: Chip, xs: seq<Cell>, x: Cell, s: u32, z: nat)
    requires ValidChip(c) && IsSector(c, s, z) && s <= x.addr < s + z && x in xs
    ensures InFlash(c, s) && Touches(c, xs, s)
  {
    SectorFits(c, s, z);
    SectorOfAll(c, s, z);
    var i :| 0 <= i < |xs| && xs[i] == x;
    assert InFlash(c, xs[i].addr) && Together(c, xs[i].addr, s);
  }

  lemma PutNothing(c: Chip, m: Store, addr: u32, data: seq<byte>)
    requires Sound(c, m) && addr + |data| <= ADDRESS_SPACE
    ensures PutAll(c, m, Cells(addr, data[..0])) == m
  {
    assert Cells(addr, data[..0]) == [];
  }

  /** A piece of `n` bytes put after the first `k`; and if the whole write is quiet, so is the piece. */
  lemma PieceAppended(c: Chip, m: Store, addr: nat, data: seq<byte>, k: nat, n: nat)
    requires Sound(c, m) && Base(c) <= addr && addr + |data| <= c.limit && k + n <= |data|
    ensures PutAll(c, m, Cells(addr, data[..k + n])) ==
            PutAll(c, PutAll(c, m, Cells(addr, data[..k])), Cells(addr + k, data[k..k + n]))
    ensures Quiet(c, m, Cells(addr, data)) ==>
              PutAll(c, m, Cells(addr, data[..k + n])).flash == m.flash == PutAll(c, m, Cells(addr, data[..k])).flash
  {
    hide PutAll, Quiet, Sound;
    assert data[..k + n] == data[..k] + data[k..k + n];
    CellsAppend(addr, data[..k], data[k..k + n]);
    PutAllAppend(c, m, Cells(addr, data[..k]), Cells(addr + k, data[k..k + n]));
    if Quiet(c, m, Cells(addr, data)) {
      QuietPrefix(c, m, addr, data, k);
      QuietPrefix(c, m, addr, data, k + n);
    }
  }

  lemma QuietPrefix(c: Chip, m: Store, addr: nat, data: seq<byte>, k: nat)
    requires Sound(c, m) && Base(c) <= addr && addr + |data| <= c.limit && k <= |data|
    requires Quiet(c, m, Cells(addr, data))
    ensures PutAll(c, m, Cells(addr, data[..k])).flash == m.flash
  {
    hide PutAll, Quiet, Sound;
    assert data == data[..k] + data[k..];
    CellsAppend(addr, data[..k], data[k..]);
    QuietAppend(c, m, Cells(addr, data[..k]), Cells(addr + k, data[k..]));
    QuietKeeps(c, m, Cells(addr, data[..k]));
  }

  lemma OverlayNext(d: seq<byte>, at: nat, piece: seq<byte>, i: nat)
    requires at + |piece| <= |d| && i < |piece|
    ensures Overlay(d, at, piece[..i])[at + i := piece[i]] == Overlay(d, at, piece[..i + 1])
  {
  }

  /** The buffer is the open sector, whether it was opened before or not. */
  lemma GatherIs(c: Chip, m: Store, s: u32, d: seq<byte>, p: u32)
    requires Sound(c, m) && IsSector(c, s, |d|) && s <= p < s + |d| && InFlash(c, p)
    requires m.cache == Opened(s, d) || (m.cache.Idle? && forall i :: 0 <= i < |d| ==> d[i] == ERASED)
    ensures Gather(c, m, p) == Store(m.flash, Opened(s, d))
  {
    SectorOfAll(c, s, |d|);
    assert m.cache.Idle? ==> d == Filled(|d|, ERASED);
  }

  lemma LeaveCase(c: Chip, m: Store, addr: u32)
    requires Sound(c, m)
    ensures Leave(c, m, addr) ==
            if m.cache.Idle? || m.cache.sector <= addr < m.cache.sector + |m.cache.data| then m else Commit(c, m)
    ensures m.cache.Idle? ==> Commit(c, m) == m
    ensures Commit(c, m).cache.Idle?
  {
  }

  /** An address rounds down to the block exactly when it lies in it. */
  lemma BlockAligned(c: Chip, s: u32, z: nat, block: nat, addr: u32)
    requires ValidChip(c) && IsSector(c, s, z) && (block == s || block == s + z)
    ensures z > 0 && Base(c) <= s && s + z <= c.limit
    ensures RoundDown(addr, z) == block <==> block <= addr < block + z
  {
    SectorFits(c, s, z);
    SectorGeometry(c, s);
    MultipleSum(s, z, z);
    RoundDownBlock(addr, z, block);
  }

  /** Below the first entry the table gives no size. */
  lemma BelowTable(c: Chip, addr: u32)
    requires ValidChip(c) && addr < c.limit && SizeAt(c, addr) > 0
    ensures InFlash(c, addr)
  {
    if addr < Base(c) {
      assert c.sectors[..|c.sectors|] == c.sectors;
      ScanBelow(c, addr, |c.sectors|);
    }
  }

  lemma {:induction false} ScanBelow(c: Chip, addr: u32, n: nat)
    requires ValidChip(c) && addr < Base(c) && n <= |c.sectors|
    ensures SectorSize(c.sectors[..n], addr) == 0
  {
    if n > 0 {
      EntryBounds(c, n - 1);
      assert c.sectors[..n][..n - 1] == c.sectors[..n - 1];
      ScanBelow(c, addr, n - 1);
    }
  }

  lemma CommitBlock(c: Chip, f: seq<byte>, s: u32, d: seq<byte>)
    requires Window(c, f) && IsSector(c, s, |d|)
    ensures Base(c) <= s && s + |d| <= c.limit
    ensures Commit(c, Store(f, Opened(s, d))) == Store(Overlay(f, s - Base(c), d), Idle)
    ensures Commit(c, Store(f, Opened(s, d))).flash == f <==> f[s - Base(c)..s - Base(c) + |d|] == d
  {
    SectorFits(c, s, |d|);
    OverlayIdle(f, s - Base(c), d);
  }

  lemma FlushedBlock(f: seq<byte>, g: seq<byte>, at: nat, d: seq<byte>)
    requires SameAround(f, g, at, |d|)
    ensures g[at..at + |d|] == d ==> g == Overlay(f, at, d)
  {
    SameAroundIsOverlay(f, g, at, |d|);
  }

  lemma BlockSlice(mem: seq<byte>, lo: nat, hi: nat, addr: nat, n: nat)
    requires lo <= addr && addr + n <= hi <= |mem|
    ensures mem[lo..hi][addr - lo..addr - lo + n] == mem[addr..addr + n]
    ensures DebugTarget.Blank(mem[lo..hi], addr - lo, n) == DebugTarget.Blank(mem[addr..addr + n], 0, n)
  {
    FlashSlice(mem, lo, hi, addr, n);
    var m := mem[addr..addr + n];
    assert forall i :: 0 <= i < n ==> m[i] == mem[addr + i];
    assert forall i :: addr <= i < addr + n ==> mem[i] == m[i - addr];
  }

  lemma PieceOf(mem: seq<byte>, at: nat, size: nat, k: nat, n: nat)
    requires at + size <= |mem| && k + n <= size
    ensures mem[at..at + size][k..k + n] == mem[at + k..at + k + n]
  {
    var v, w := mem[at..at + size][k..k + n], mem[at + k..at + k + n];
    assert forall i :: 0 <= i < n ==> v[i] == w[i];
  }

  lemma FirstErased(v: seq<byte>, n: nat)
    requires n <= |v|
    ensures DebugTarget.Blank(v, 0, n) <==> DebugTarget.Blank(v[..n], 0, n)
  {
    assert forall i :: 0 <= i < n ==> v[..n][i] == v[i];
  }

  lemma WholeBlock(m: seq<byte>, buf: seq<byte>)
    requires |m| == |buf|
    ensures m[..|m|] == m && buf[..|buf|] == buf
    ensures m[..0] == buf[..0] && DebugTarget.Blank(m, 0, 0)
  {
  }

  /** A difference, and a byte that is not 0xFF, in a prefix settle both questions. */
  lemma BothSettled(m: seq<byte>, buf: seq<byte>, k: nat)
    requires k <= |m| == |buf| && m[..k] != buf[..k]
    ensures m != buf
    ensures !DebugTarget.Blank(m, 0, k) ==> !DebugTarget.Blank(m, 0, |m|)
  {
  }

  /** One more piece of the block compared. */
  lemma ScanMore(m: seq<byte>, buf: seq<byte>, k: nat, n: nat)
    requires k + n <= |m| == |buf|
    ensures m[..k + n] == buf[..k + n] <==> m[..k] == buf[..k] && m[k..k + n] == buf[k..k + n]
    ensures DebugTarget.Blank(m, 0, k + n) <==> DebugTarget.Blank(m, 0, k) && DebugTarget.Blank(m[k..k + n], 0, n)
  {
    assert m[..k + n] == m[..k] + m[k..k + n];
    assert buf[..k + n] == buf[..k] + buf[k..k + n];
    var p := m[k..k + n];
    assert forall i :: 0 <= i < n ==> p[i] == m[k + i];
    assert forall i :: k <= i < k + n ==> m[i] == p[i - k];
  }
}
