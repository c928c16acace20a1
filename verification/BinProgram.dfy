/** A raw image programmed as one contiguous stream over the accessor. */
module BinProgramming {
  import opened Words
  import opened FlashIface
  import opened FlashModel
  import DebugTarget
  import Session
  import FlashResult
  import FlashDriver
  import opened Accessor

  class BinaryProgram {
    const flash: FlashAccessor
    var programAddr: u32
    ghost var origin: u32
    ghost var stream: seq<byte>

    ghost function T(): DebugTarget.Target {
      flash.flash.swd.target
    }

    ghost function Chip(): FlashIface.Chip {
      flash.flash.swd.target.chip
    }

    /** The session has been asked to write the stream at its origin. */
    ghost predicate Asked()
      reads this, flash
    {
      origin + |stream| <= Chip().limit && flash.session == Cells(origin, stream)
    }

    /** The accessor stands for the stream written at its origin in one go, however it was cut. */
    ghost predicate Streamed()
      reads this, flash, flash.buffer, flash.flash, T()
    {
      Asked() && programAddr == origin + |stream| && flash.Gathered()
    }

    constructor (flash: FlashAccessor)
      ensures this.flash == flash
    {
      this.flash := flash;
      programAddr, origin, stream := 0, 0, [];
    }

    /** Opens the session; a raw image needs an address. */
    method Init(config: Config, addr: u32) returns (ok: bool)
      requires flash.Valid() && Describes(config, Chip()) && addr <= Chip().limit
      modifies this, flash, flash.flash, flash.flash.swd, T()
      ensures flash.Valid() && flash.buffer == old(flash.buffer) && old(T().log) <= T().log
      ensures addr == 0 ==> !ok
      ensures ok ==> flash.state.Open? && Streamed() && origin == addr && stream == []
      ensures ok ==> flash.start == old(T().Flash()) && flash.began == old(T().phase.calls)
      ensures T().Flash() == old(T().Flash())
      ensures T().phase.calls == old(T().phase.calls) && T().phase.blank == old(T().phase.blank)
      ensures ok && FlashDriver.Serves(Chip(), config.regions, FlashDriver.FirstDefault(config.regions)) ==>
                flash.flash.Served()
      ensures !ok ==> flash.state == old(flash.state)
      ensures ok ==> old(flash.state.Closed?)
      ensures addr == 0 ==> T().log == old(T().log)
      ensures T().reliable && old(flash.state.Closed?) && addr != 0 ==> ok && !T().noisy
    {
      if addr == 0 { return false; }
      programAddr, origin, stream := addr, addr, [];
      BaseBelowLimit(Chip());
      var err := flash.Init(config);
      ok := err.NONE?;
    }

    /** Appends to the stream. */
    method Write(data: seq<byte>) returns (ok: bool)
      requires flash.Valid() && flash.state.Open? && Streamed()
      requires programAddr < Chip().limit && programAddr + |data| <= Chip().limit
      modifies this, flash, flash.buffer
      modifies flash.flash`startAddr, flash.flash`lastFunc, flash.flash`current, flash.flash`state
      modifies flash.flash.verifyBuf, flash.flash.swd, T()
      ensures flash.Valid() && (old(T().noisy) ==> T().noisy) && old(T().log) <= T().log
      ensures flash.buffer == old(flash.buffer) || fresh(flash.buffer)
      ensures origin == old(origin) && stream == old(stream) + data && Asked()
      ensures ok ==> flash.state.Open? && Streamed()
      ensures flash.start == old(flash.start) && flash.began == old(flash.began)
      ensures !T().noisy && T().erases ==> T().phase.blank == old(T().phase.blank)
      ensures T().reliable ==>
                && T().noisy == old(T().noisy)
                && (!T().noisy && flash.flash.Served() && Base(Chip()) <= old(programAddr) ==> ok)
      ensures !ok ==> flash.state.Error?
      ensures programAddr == old(programAddr) + if ok then |data| else 0
    {
      hide PutAll, Quiet, Describes, DebugTarget.Scan, FlashResult.Kept, FlashResult.Touches, Sound, Window, Inside;
      hide Cells, Wrap;
      var next := NextAddr(data);
      ok := Append(data);
      if ok { programAddr := next; }
    }

    /** Where the stream goes on: the sum does not wrap. */
    function NextAddr(data: seq<byte>): (next: u32)
      requires programAddr + |data| <= Chip().limit
      reads this
      ensures next == programAddr + |data|
    {
      Wrap(programAddr + |data|)
    }

    method Append(data: seq<byte>) returns (ok: bool)
      requires flash.Valid() && flash.state.Open? && Streamed()
      requires programAddr < Chip().limit && programAddr + |data| <= Chip().limit
      modifies `stream, flash, flash.buffer
      modifies flash.flash`startAddr, flash.flash`lastFunc, flash.flash`current, flash.flash`state
      modifies flash.flash.verifyBuf, flash.flash.swd, T()
      ensures flash.Valid() && (old(T().noisy) ==> T().noisy) && old(T().log) <= T().log
      ensures flash.buffer == old(flash.buffer) || fresh(flash.buffer)
      ensures stream == old(stream) + data && Asked()
      ensures ok ==> flash.state.Open? && flash.Gathered()
      ensures flash.start == old(flash.start) && flash.began == old(flash.began)
      ensures !T().noisy && T().erases ==> T().phase.blank == old(T().phase.blank)
      ensures T().reliable ==>
                && T().noisy == old(T().noisy)
                && (!T().noisy && flash.flash.Served() && Base(Chip()) <= programAddr ==> ok)
      ensures !ok ==> flash.state.Error?
    {
      hide WriteAt, PutAll, Quiet, QuietWrite, Describes, DebugTarget.Scan, FlashResult.Kept, FlashResult.Touches;
      hide Sorted, Aligned, IsSector, Commit, Sound, Window, Inside, Cells;
      ghost var m0, before := Store(flash.start, Idle), stream;
      CellsAppend(origin, stream, data);
      stream := stream + data;
      var err := flash.Write(programAddr, data);
      ok := err.NONE?;
      if ok { Extended(Chip(), m0, origin, before, data); }
    }

    /** Closes the session. The source drops the result. */
    method Clean() returns (err: Err)
      requires flash.Valid()
      modifies `programAddr, flash, flash.buffer
      modifies flash.flash`startAddr, flash.flash`lastFunc, flash.flash`current, flash.flash`state
      modifies flash.flash.verifyBuf, flash.flash.swd, T()
      ensures flash.Valid() && flash.state.Closed? && programAddr == 0
      ensures (old(T().noisy) ==> T().noisy) && old(T().log) <= T().log
      ensures flash.start == old(flash.start) && flash.session == old(flash.session) && flash.began == old(flash.began)
      ensures old(flash.state.Closed?) ==> err.INTERNAL? && T().log == old(T().log)
      ensures !old(flash.state.Open?) ==> T().Flash() == old(T().Flash())
      ensures old(flash.state.Open?) ==> FlashResult.OnlyOpen(Chip(), old(flash.Abs()), T().Flash())
      ensures old(flash.state.Open?) ==> old(Sound(Chip(), flash.Abs()))
      ensures old(flash.state.Open?) && err.NONE? && !T().noisy ==>
                T().Flash() == old(Commit(Chip(), flash.Abs()).flash)
      ensures old(flash.state.Open?) && !T().noisy && old(Commit(Chip(), flash.Abs()).flash == flash.Abs().flash) ==>
                && T().Flash() == old(T().Flash())
                && (old(flash.flash.lastFunc.Nop?) ==> T().phase.calls == old(T().phase.calls))
      ensures !T().noisy && T().erases ==> T().phase.blank == old(T().phase.blank)
      ensures !old(flash.state.Closed?) && !err.UNINIT? ==> T().log != [] && T().log[|T().log| - 1] == DebugTarget.Run
      ensures err.UNINIT? ==>
                && Session.Unreleased(T().log[|old(T().log)|..]) && T().log != []
                && flash.flash.OpensOrCloses(T().log[|T().log| - 1], Nop, false)
      ensures T().phase.failed == old(T().phase.failed)
      ensures T().reliable ==> T().noisy == old(T().noisy)
      ensures T().reliable && !T().noisy && old(flash.state.Open? && flash.sectorValid) ==> err.NONE?
    {
      programAddr := 0;
      err := flash.Uninit();
    }
  }

  /** What a further piece adds to a stream, in contents and in changes to the flash. */
  lemma Extended(c: Chip, m: Store, addr: u32, d: seq<byte>, e: seq<byte>)
    requires Sound(c, m) && m.cache.Idle? && Base(c) <= addr + |d| < c.limit && addr + |d| + |e| <= c.limit
    requires Inside(c, Cells(addr, d))
    ensures Inside(c, Cells(addr, d + e))
    ensures var p := PutAll(c, m, Cells(addr, d));
            && WriteAt(c, p, addr + |d|, e) == PutAll(c, m, Cells(addr, d + e))
            && (Quiet(c, m, Cells(addr, d + e)) ==> Quiet(c, m, Cells(addr, d)) && QuietWrite(c, p, addr + |d|, e))
  {
    if d != [] { assert InFlash(c, Cells(addr, d)[0].addr); }
    CellsAppend(addr, d, e);
    PutAllAppend(c, m, Cells(addr, d), Cells(addr + |d|, e));
    QuietAppend(c, m, Cells(addr, d), Cells(addr + |d|, e));
    assert Leave(c, m, addr) == m;
    WriteStays(c, m, addr, d);
  }
}
