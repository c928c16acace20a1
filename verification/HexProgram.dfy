/** The driver loop that joins the decoder to the accessor. */
module HexProgramming {
  import opened Words
  import opened FlashIface
  import opened FlashModel
  import opened HexMachine
  import opened HexParsing
  import DebugTarget
  import Session
  import FlashResult
  import FlashDriver
  import opened Accessor

  const DECODE_BUFFER: nat := 256
  const MAX_BLOCK: nat := 448 // 2 * DECODE_BUFFER - 64: what the decode buffer can take

  predicate Below(cells: seq<Cell>, limit: u32) {
    forall i :: 0 <= i < |cells| ==> cells[i].addr < limit
  }

  lemma {:induction false} NoWrapAt(start: u32, bytes: seq<byte>, limit: u32, i: nat)
    requires i < |bytes| && Below(CellsFrom(start, bytes), limit)
    ensures start + i < limit
  {
    if i > 0 { NoWrapAt(start, bytes, limit, i - 1); }
    assert CellsFrom(start, bytes)[i].addr == Wrap(start + i);
  }

  /** Decoded bytes that all lie below the limit do not wrap around. */
  lemma NoWrap(start: u32, bytes: seq<byte>, limit: u32)
    requires bytes != [] && Below(CellsFrom(start, bytes), limit)
    ensures start < limit && start + |bytes| <= limit
    ensures CellsFrom(start, bytes) == Cells(start, bytes)
  {
    NoWrapAt(start, bytes, limit, |bytes| - 1);
  }

  /** From `a` to `b`: the address reported to the user is that of the first byte decoded, once there is one. */
  predicate Reported(a: u32, cells: seq<Cell>, b: u32) {
    && (a != 0 || cells == [] ==> b == a)
    && (a == 0 && cells != [] && cells[0].addr != 0 ==> b == cells[0].addr)
  }

  lemma ReportedMore(a: u32, done: seq<Cell>, was: u32, more: seq<Cell>, now: u32)
    requires Reported(a, done, was)
    ensures Reported(was, more, now) ==> Reported(a, done + more, now)
  {
  }

  class HexProgram {
    const flash: FlashAccessor
    const parser: HexParser
    const decodeBuffer: array<byte>
    var programAddr: u32

    ghost function T(): DebugTarget.Target {
      flash.flash.swd.target
    }

    ghost function Chip(): FlashIface.Chip {
      flash.flash.swd.target.chip
    }

    ghost predicate Valid()
      reads this, flash, flash.buffer, flash.flash, flash.flash.swd, T(), parser, parser.line
    {
      && flash.Valid() && parser.Valid()
      && decodeBuffer.Length == DECODE_BUFFER
      && decodeBuffer != parser.line && decodeBuffer != flash.buffer && decodeBuffer != flash.flash.verifyBuf
      && parser.line != flash.buffer && parser.line != flash.flash.verifyBuf
    }

    constructor (flash: FlashAccessor)
      requires flash.Valid()
      ensures Valid() && this.flash == flash && fresh(parser) && fresh(parser.line) && fresh(decodeBuffer)
    {
      this.flash := flash;
      parser := new HexParser();
      decodeBuffer := new byte[DECODE_BUFFER];
      programAddr := 0;
    }

    /** Opens the session and resets the parser. */
    method Init(config: Config) returns (ok: bool)
      requires Valid() && Describes(config, Chip())
      modifies this, parser, parser.line, flash
      modifies flash.flash, flash.flash.swd, T()
      ensures Valid() && flash.buffer == old(flash.buffer) && old(T().log) <= T().log
      ensures ok ==> flash.state.Open? && parser.State() == HexMachine.RESET && flash.Gathered()
      ensures ok ==> flash.start == old(T().Flash()) && flash.session == [] && flash.began == old(T().phase.calls)
      ensures T().Flash() == old(T().Flash())
      ensures T().phase.calls == old(T().phase.calls) && T().phase.blank == old(T().phase.blank)
      ensures ok && FlashDriver.Serves(Chip(), config.regions, FlashDriver.FirstDefault(config.regions)) ==>
                flash.flash.Served()
      ensures !ok ==> flash.state == old(flash.state)
      ensures ok ==> old(flash.state.Closed?)
      ensures T().reliable && old(flash.state.Closed?) ==> ok && !T().noisy
    {
      programAddr := 0;
      parser.Reset();
      var err := flash.Init(config);
      ok := err.NONE?;
    }

    /** Hands the decoded bytes to the accessor. */
    method Emit(start: u32, count: nat) returns (ok: bool)
      requires Valid() && flash.state.Open? && flash.Gathered() && count <= DECODE_BUFFER
      requires Below(CellsFrom(start, decodeBuffer[..count]), Chip().limit)
      modifies flash, flash.buffer
      modifies flash.flash`startAddr, flash.flash`lastFunc, flash.flash`current, flash.flash`state
      modifies flash.flash.verifyBuf, flash.flash.swd, T()
      ensures Valid() && (old(T().noisy) ==> T().noisy) && old(T().log) <= T().log
      ensures flash.buffer == old(flash.buffer) || fresh(flash.buffer)
      ensures ok ==> flash.state.Open? && flash.Gathered()
      ensures flash.start == old(flash.start) && flash.began == old(flash.began)
      ensures flash.session == old(flash.session) + CellsFrom(start, decodeBuffer[..count])
      ensures !T().noisy && T().erases ==> T().phase.blank == old(T().phase.blank)
      ensures T().reliable ==> T().noisy == old(T().noisy)
      ensures T().reliable && !T().noisy && flash.flash.Served()
              && Inside(Chip(), CellsFrom(start, decodeBuffer[..count])) ==>
                ok
      ensures !ok ==> flash.state.Error?
    {
      hide PutAll, Quiet, Describes, DebugTarget.Scan, FlashResult.Kept, FlashResult.Touches, Sorted, Aligned;
      hide FlashAccessor.Abs, HexParser.Valid;
      ghost var c, m, m0, cells := Chip(), flash.Abs(), Store(flash.start, Idle), flash.session;
      var bytes := decodeBuffer[..count];
      flash.OpenSound();
      assert cells + [] == cells;
      ok := true;
      if count > 0 {
        NoWrap(start, bytes, c.limit);
        if Inside(c, Cells(start, bytes)) { assert InFlash(c, Cells(start, bytes)[0].addr); }
        var err := flash.Write(start, bytes);
        ok := err.NONE?;
        if ok {
          PutAllAppend(c, m0, cells, Cells(start, bytes));
          QuietAppend(c, m0, cells, Cells(start, bytes));
          if !T().noisy {
            WriteIsCells(c, m, start, bytes);
            if Quiet(c, m, Cells(start, bytes)) { QuietWriteIsQuiet(c, m, start, bytes); }
          }
        }
      }
    }

    /** Programs a block of the file, and moves the reported address on by what was decoded. */
    method Write(data: seq<byte>) returns (ok: bool)
      requires Valid() && flash.state.Open? && flash.Gathered() && |data| <= MAX_BLOCK && (parser.skip ==> data != [])
      requires Decodable(FeedBlock(parser.State(), data))
      modifies `programAddr, parser, parser.line, decodeBuffer, flash, flash.buffer
      modifies flash.flash`startAddr, flash.flash`lastFunc, flash.flash`current, flash.flash`state
      modifies flash.flash.verifyBuf, flash.flash.swd, T()
      ensures Valid() && (old(T().noisy) ==> T().noisy) && old(T().log) <= T().log
      ensures flash.buffer == old(flash.buffer) || fresh(flash.buffer)
      ensures ok ==>
                var f := FeedBlock(old(parser.State()), data);
                && !f.end.BadChecksum? && parser.State() == f.parser
                && flash.state.Open? && flash.Gathered() && flash.session == old(flash.session) + f.out
      ensures flash.start == old(flash.start) && flash.began == old(flash.began)
      ensures old(flash.session) <= flash.session <= old(flash.session) + FeedBlock(old(parser.State()), data).out
      ensures !T().noisy && T().erases ==> T().phase.blank == old(T().phase.blank)
      ensures var f := FeedBlock(old(parser.State()), data);
              T().reliable ==>
                && T().noisy == old(T().noisy)
                && (!T().noisy && flash.flash.Served() && !f.end.BadChecksum? && Inside(Chip(), f.out) ==> ok)
      ensures ok <==> flash.state.Open? && !FeedBlock(old(parser.State()), data).end.BadChecksum?
      ensures !ok ==> !flash.state.Closed?
      ensures var out, a := FeedBlock(old(parser.State()), data).out, old(programAddr);
              ok ==>
                && (a != 0 || out == [] ==> programAddr == Wrap(a + |out|))
                && (a == 0 && out != [] && out[0].addr != 0 ==> programAddr == Wrap(out[0].addr + |out|))
    {
      hide FeedBlock, PutAll, Quiet, Below, Describes, DebugTarget.Scan, FlashResult.Kept, FlashResult.Touches;
      var size;
      ok, size := WriteHex(data);
      if ok { programAddr := Wrap(programAddr + size); }
    }

    /** Closes the session. The source drops the result. */
    method Clean() returns (err: Err)
      requires Valid()
      modifies `programAddr, flash, flash.buffer
      modifies flash.flash`startAddr, flash.flash`lastFunc, flash.flash`current, flash.flash`state
      modifies flash.flash.verifyBuf, flash.flash.swd, T()
      ensures Valid() && flash.state.Closed? && programAddr == 0
      ensures (old(T().noisy) ==> T().noisy) && old(T().log) <= T().log
      ensures flash.start == old(flash.start) && flash.session == old(flash.session) && flash.began == old(flash.began)
      ensures old(flash.state.Closed?) ==> err.INTERNAL? && T().log == old(T().log)
      ensures !old(flash.state.Open?) ==> T().Flash() == old(T().Flash())
      ensures old(flash.state.Open?) ==> FlashResult.OnlyOpen(Chip(), old(flash.Abs()), T().Flash())
      ensures old(flash.state.Open?) ==> old(Sound(Chip(), flash.Abs()))
      ensures old(flash.state.Open?) && err.NONE? && !T().noisy ==>
                T().Flash() == old(Commit(Chip(), flash.Abs()).flash)
      ensures old(flash.state.Open?) && !T().noisy && old(Commit(Chip(), flash.Abs()).flash == flash.Abs().flash) ==>
                && T().Flash() == old(T().Flash())
                && (old(flash.flash.lastFunc.Nop?) ==> T().phase.calls == old(T().phase.calls))
      ensures !T().noisy && T().erases ==> T().phase.blank == old(T().phase.blank)
      ensures !old(flash.state.Closed?) && !err.UNINIT? ==> T().log != [] && T().log[|T().log| - 1] == DebugTarget.Run
      ensures err.UNINIT? ==>
                && Session.Unreleased(T().log[|old(T().log)|..]) && T().log != []
                && flash.flash.OpensOrCloses(T().log[|T().log| - 1], Nop, false)
      ensures T().phase.failed == old(T().phase.failed)
      ensures T().reliable ==> T().noisy == old(T().noisy)
      ensures T().reliable && !T().noisy && old(flash.state.Open? && flash.sectorValid) ==> err.NONE?
    {
      hide FlashAccessor.Valid, HexParser.Valid;
      programAddr := 0;
      err := flash.Uninit();
    }

    /** Decodes a block and programs what it holds. The loop ends because a call that consumes nothing has
        just processed the record it stopped at. */
    method WriteHex(data: seq<byte>) returns (ok: bool, decodeSize: nat)
      requires Valid() && flash.state.Open? && flash.Gathered() && |data| <= MAX_BLOCK && (parser.skip ==> data != [])
      requires Decodable(FeedBlock(parser.State(), data))
      modifies `programAddr, parser, parser.line, decodeBuffer, flash, flash.buffer
      modifies flash.flash`startAddr, flash.flash`lastFunc, flash.flash`current, flash.flash`state
      modifies flash.flash.verifyBuf, flash.flash.swd, T()
      ensures Valid() && (old(T().noisy) ==> T().noisy) && old(T().log) <= T().log
      ensures flash.buffer == old(flash.buffer) || fresh(flash.buffer)
      ensures ok ==>
                var f := FeedBlock(old(parser.State()), data);
                && !f.end.BadChecksum? && parser.State() == f.parser
                && flash.state.Open? && flash.Gathered()
                && decodeSize == |f.out| && flash.session == old(flash.session) + f.out
      ensures flash.start == old(flash.start) && flash.began == old(flash.began)
      ensures old(flash.session) <= flash.session <= old(flash.session) + FeedBlock(old(parser.State()), data).out
      ensures !T().noisy && T().erases ==> T().phase.blank == old(T().phase.blank)
      ensures var f := FeedBlock(old(parser.State()), data);
              T().reliable ==>
                && T().noisy == old(T().noisy)
                && (!T().noisy && flash.flash.Served() && !f.end.BadChecksum? && Inside(Chip(), f.out) ==> ok)
      ensures !ok ==> flash.state.Error? || FeedBlock(old(parser.State()), data).end.BadChecksum?
      ensures !ok ==> !flash.state.Closed?
      ensures ok ==> Reported(old(programAddr), FeedBlock(old(parser.State()), data).out, programAddr)
    {
      hide FeedBlock, PutAll, Quiet, Below, Describes, DebugTarget.Scan, FlashResult.Kept, FlashResult.Touches;
      hide Sorted, Aligned, Sound, Inside, Window;
      hide FlashAccessor.Valid, FlashAccessor.Abs, Decodable, HexParser.State, Shaped, InFlash;
      decodeSize := 0;
      var rest, again := data, true;
      ghost var f0, done := FeedBlock(parser.State(), data), [];
      assert [] + f0.out == f0.out && flash.session + [] == flash.session;
      ok := true;
      while again
        invariant ok && Valid() && flash.state.Open? && flash.Gathered() && |rest| <= MAX_BLOCK
        invariant flash.buffer == old(flash.buffer) || fresh(flash.buffer)
        invariant (old(T().noisy) ==> T().noisy) && old(T().log) <= T().log
        invariant T().reliable ==> T().noisy == old(T().noisy)
        invariant again ==> (parser.skip ==> rest != []) && f0 == Prepend(done, FeedBlock(parser.State(), rest))
        invariant !again ==> f0.out == done && f0.parser == parser.State() && !f0.end.BadChecksum?
        invariant |done| == decodeSize && flash.session == old(flash.session) + done
        invariant Reported(old(programAddr), done, programAddr)
        invariant flash.start == old(flash.start) && flash.began == old(flash.began)
        invariant !T().noisy && T().erases ==> T().phase.blank == old(T().phase.blank)
        decreases again, |rest|, !parser.processed
      {
        DecodableRest(f0, done, FeedBlock(parser.State(), rest));
        var used, count;
        ghost var more;
        ghost var left, was := FeedBlock(parser.State(), rest), programAddr;
        ok, again, used, count, more := Turn(rest);
        ReportedMore(old(programAddr), done, was, more, programAddr);
        Reached(old(flash.session), done, left.out, flash.session);
        if !ok { return; }
        assert old(flash.session) + done + more == old(flash.session) + (done + more);
        decodeSize := decodeSize + count;
        done := done + more;
        rest := rest[used..];
      }
    }

    /** The text keeps to the line buffer, and its bytes go below the end of the flash. */
    ghost predicate Decodable(f: Fed) {
      !f.end.OutOfLine? && Below(f.out, Chip().limit)
    }

    lemma DecodableRest(f: Fed, done: seq<Cell>, r: Fed)
      requires Decodable(f) && f == Prepend(done, r) && ValidChip(Chip())
      ensures Decodable(r) && (Inside(Chip(), f.out) ==> Inside(Chip(), r.out))
      ensures forall a: seq<Cell>, x: Fed :: r == Prepend(a, x) ==> f == Prepend(done + a, x)
    {
      assert forall i :: 0 <= i < |r.out| ==> r.out[i] == f.out[|done| + i];
      forall a: seq<Cell>, x: Fed | r == Prepend(a, x) ensures f == Prepend(done + a, x) {
        PrependTwice(done, a, x);
      }
    }

    /** One turn of the loop: parse, program, and see whether there is more. */
    method Turn(rest: seq<byte>) returns (ok: bool, again: bool, used: nat, count: nat, ghost more: seq<Cell>)
      requires Valid() && flash.state.Open? && flash.Gathered() && |rest| <= MAX_BLOCK && (parser.skip ==> rest != [])
      requires Decodable(FeedBlock(parser.State(), rest))
      modifies `programAddr, parser, parser.line, decodeBuffer, flash, flash.buffer
      modifies flash.flash`startAddr, flash.flash`lastFunc, flash.flash`current, flash.flash`state
      modifies flash.flash.verifyBuf, flash.flash.swd, T()
      ensures Valid() && (old(T().noisy) ==> T().noisy) && old(T().log) <= T().log && used <= |rest|
      ensures flash.buffer == old(flash.buffer) || fresh(flash.buffer)
      ensures ok ==>
                flash.state.Open? && flash.Gathered() && |more| == count && flash.session == old(flash.session) + more
      ensures flash.start == old(flash.start) && flash.began == old(flash.began)
      ensures old(flash.session) <= flash.session <= old(flash.session) + FeedBlock(old(parser.State()), rest).out
      ensures ok && again ==>
                && !parser.skip
                && FeedBlock(old(parser.State()), rest) == Prepend(more, FeedBlock(parser.State(), rest[used..]))
                && (used > 0 || (!old(parser.processed) && parser.processed))
      ensures ok && !again ==>
                var f := FeedBlock(old(parser.State()), rest);
                f.out == more && f.parser == parser.State() && !f.end.BadChecksum?
      ensures !T().noisy && T().erases ==> T().phase.blank == old(T().phase.blank)
      ensures var f := FeedBlock(old(parser.State()), rest);
              T().reliable ==>
                && T().noisy == old(T().noisy)
                && (!T().noisy && flash.flash.Served() && !f.end.BadChecksum? && Inside(Chip(), f.out) ==> ok)
      ensures !ok ==> flash.state.Error? || FeedBlock(old(parser.State()), rest).end.BadChecksum?
      ensures !ok ==> !flash.state.Closed?
      ensures ok ==> Reported(old(programAddr), more, programAddr)
    {
      hide FeedBlock, PutAll, Quiet, Below, Describes, DebugTarget.Scan, FlashResult.Kept, FlashResult.Touches;
      hide Sorted, Aligned, Sound, Inside, Window;
      hide FlashAccessor.Valid, FlashAccessor.Abs, Shaped;
      var bad, start;
      bad, again, used, start, count := Parse(rest);
      more := CellsFrom(start, decodeBuffer[..count]);
      InsideFront(Chip(), more, FeedBlock(parser.State(), rest[used..]).out);
      ok := false;
      if !bad {
        ok := Emit(start, count);
      }
    }

    /** Decodes up to the next interruption. The first decoded address is the one reported to the user. */
    method Parse(rest: seq<byte>) returns (bad: bool, again: bool, used: nat, start: u32, count: nat)
      requires Valid() && |rest| <= MAX_BLOCK && (parser.skip ==> rest != [])
      requires Decodable(FeedBlock(parser.State(), rest))
      modifies `programAddr, parser, parser.line, decodeBuffer
      ensures Valid() && used <= |rest| && count <= DECODE_BUFFER
      ensures Below(CellsFrom(start, decodeBuffer[..count]), Chip().limit)
      ensures var f := FeedBlock(old(parser.State()), rest);
              var more := CellsFrom(start, decodeBuffer[..count]);
              && (bad ==> f.end.BadChecksum?)
              && (!bad && again ==>
                    && !parser.skip && f == Prepend(more, FeedBlock(parser.State(), rest[used..]))
                    && (used > 0 || (!old(parser.processed) && parser.processed)))
              && (!bad && !again ==> f.out == more && f.parser == parser.State() && !f.end.BadChecksum?)
      ensures programAddr == if old(programAddr) == 0 && count > 0 then start else old(programAddr)
    {
      hide Feed, CellsFrom, Below;
      var status;
      BlockCase(parser.State(), rest);
      status, used, start, count := parser.ParseBlob(rest, decodeBuffer);
      bad, again := status.CKSUM_FAIL?, status.UNALIGNED?;
      BelowFront(CellsFrom(start, decodeBuffer[..count]), Feed(parser.State(), rest[used..]).out, Chip().limit);
      BelowNothing(start, decodeBuffer[..count], Chip().limit);
      if programAddr == 0 && count > 0 { programAddr := start; }
    }
  }

  lemma BlockCase(p: Parser, block: seq<byte>)
    requires Shaped(p) && (p.skip ==> block != [])
    ensures FeedBlock(p, block) ==
            if p.skip && block[0] != COLON then Fed([], p, Running, []) else Feed(p.(skip := false), block)
  {
  }

  lemma BelowNothing(start: u32, bytes: seq<byte>, limit: u32)
    ensures bytes == [] ==> CellsFrom(start, bytes) == [] && Below(CellsFrom(start, bytes), limit)
  {
  }

  /** The session after a turn that was to add `left` to what was done before. */
  lemma Reached(before: seq<Cell>, done: seq<Cell>, left: seq<Cell>, now: seq<Cell>)
    requires before + done <= now <= before + done + left
    ensures before <= now <= before + (done + left)
  {
    assert before + done + left == before + (done + left);
  }

  lemma InsideFront(c: FlashIface.Chip, a: seq<Cell>, b: seq<Cell>)
    requires c.sectors != []
    ensures Inside(c, a + b) ==> Inside(c, a)
  {
    assert forall i :: 0 <= i < |a| ==> (a + b)[i] == a[i];
  }

  lemma BelowFront(a: seq<Cell>, b: seq<Cell>, limit: u32)
    ensures Below(a + b, limit) ==> Below(a, limit)
  {
    assert forall i :: 0 <= i < |a| ==> (a + b)[i] == a[i];
  }
}
