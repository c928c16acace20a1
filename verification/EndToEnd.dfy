/** A whole file programmed in blocks: what the flash holds at the end, and when nothing is done. */
module EndToEnd {
  import opened Words
  import DebugTarget
  import opened Session
  import opened FlashIface
  import opened FlashModel
  import opened FlashResult
  import opened Reflash
  import opened HexMachine
  import opened HexFormat
  import FlashDriver
  import opened Accessor
  import opened HexProgramming
  import opened BinProgramming

  // ---- closing a session ----

  /** A session that has put `xs` and is then committed leaves exactly `Written`; and if the flash held the
      image before, no commit on the way changed it. */
  lemma SessionCommits(c: Chip, f: seq<byte>, xs: seq<Cell>)
    requires Window(c, f) && Inside(c, xs)
    ensures var m := PutAll(c, Store(f, Idle), xs);
            && Commit(c, m).flash == Written(c, f, xs)
            && (Orderly(c, xs) && Written(c, f, xs) == f ==>
                  Quiet(c, Store(f, Idle), xs) && m.flash == f)
  {
    if Orderly(c, xs) && Written(c, f, xs) == f {
      SettledQuiet(c, f, xs);
      QuietKeeps(c, Store(f, Idle), xs);
    }
  }

  /** The flash `g` is `f` after the writes `xs`, all of which lie in the flash. */
  ghost predicate Flashed(c: Chip, f: seq<byte>, xs: seq<Cell>, g: seq<byte>) {
    Window(c, f) && Inside(c, xs) && g == Written(c, f, xs)
  }

  /** After the writes `xs` the flash is `Written` before the open sector is committed; see `FinalBeforeClose`, and
      `FinalEarly` for orderly writes. */
  ghost predicate Early(c: Chip, f: seq<byte>, xs: seq<Cell>) {
    Window(c, f) && Inside(c, xs) && PutAll(c, Store(f, Idle), xs).flash == Written(c, f, xs)
  }

  /** What a run that reports success has done, if no read was garbled. Even if the close fails, all is final but
      the sector of the last byte. Closed without error, all is; and all is however the close ends if it was so
      before. If all was there from the start, no routine was run. */
  ghost predicate Done(c: Chip, f: seq<byte>, xs: seq<Cell>, g: seq<byte>, closed: Err, quiet: bool) {
    && Settled(c, f, xs, g)
    && (closed.NONE? || Early(c, f, xs) ==> Flashed(c, f, xs, g))
    && (Flashed(c, f, xs, f) && Orderly(c, xs) ==> quiet)
  }

  /** The close, whatever its result: it changes the open sector only, and nothing if this is there already. */
  lemma Closing(c: Chip, f: seq<byte>, xs: seq<Cell>, g: seq<byte>, closed: Err, quiet: bool)
    requires Window(c, f) && Inside(c, xs)
    requires var m := PutAll(c, Store(f, Idle), xs);
             && OnlyOpen(c, m, g)
             && (closed.NONE? ==> g == Commit(c, m).flash)
             && (Commit(c, m).flash == m.flash ==> g == m.flash)
             && (Commit(c, m).flash == m.flash && Quiet(c, Store(f, Idle), xs) ==> quiet)
    ensures Done(c, f, xs, g, closed, quiet)
  {
    hide Settled, OnlyOpen, PutAll, Commit, Orderly, Quiet;
    OnlyOpenSettles(c, f, xs, g);
    SessionCommits(c, f, xs);
  }

  /** How a session that was opened has ended: the target is released, as the last thing; or the last thing is an
      UnInit that failed, and it is not. */
  ghost predicate Over(log: seq<DebugTarget.Event>, closed: Err) {
    && log != []
    && var e := log[|log| - 1];
       if closed.UNINIT? then e.Call? && e.routine.UnInit? && !e.ok else e.Run?
  }

  /** What a run reports. `closed` is the result of the final uninit, none if no session was opened: then no routine
      was run. Once a session is open, success is reported if and only if the image decodes to its end and the
      accessor has reported no error, however the session is closed. */
  ghost predicate Outcome(before: seq<DebugTarget.Event>, t: DebugTarget.Target, closed: Option<Err>, ok: bool,
                          decodes: bool)
    reads t
  {
    && before <= t.log
    && match closed
       case None => !ok && Silent(t.log[|before|..])
       case Some(err) => Over(t.log, err) && (ok <==> decodes && !t.phase.failed)
  }

  // ---- Intel HEX files ----

  /** Every block can be decoded: it keeps to the line buffer, and its bytes go below the end of the flash.
      Decoding may fail on a checksum. */
  ghost predicate Feedable(p: Parser, chunks: seq<seq<byte>>, limit: u32)
    requires Shaped(p)
    decreases |chunks|
  {
    chunks != [] ==>
      var f := FeedBlock(p, chunks[0]);
      && |chunks[0]| <= MAX_BLOCK
      && !f.end.OutOfLine? && Below(f.out, limit)
      && (f.end.BadChecksum? || Feedable(f.parser, chunks[1..], limit))
  }

  /** Blocks that decode to the end, to bytes below the end of the flash, can all be decoded. */
  lemma {:induction false} RunningFeedable(p: Parser, chunks: seq<seq<byte>>, limit: u32)
    requires Shaped(p) && FeedChunks(p, chunks).end.Running? && Below(FeedChunks(p, chunks).out, limit)
    requires forall i :: 0 <= i < |chunks| ==> |chunks[i]| <= MAX_BLOCK
    ensures Feedable(p, chunks, limit)
    decreases |chunks|
  {
    if chunks != [] {
      var f := FeedBlock(p, chunks[0]);
      var r := FeedChunks(f.parser, chunks[1..]);
      assert forall i :: 0 <= i < |f.out| ==> (f.out + r.out)[i] == f.out[i];
      assert forall i :: 0 <= i < |r.out| ==> (f.out + r.out)[|f.out| + i] == r.out[i];
      RunningFeedable(f.parser, chunks[1..], limit);
    }
  }

  /** What a block decodes to is a part of what the file does, also if decoding fails in it. */
  lemma BlockWithin(whole: Fed, done: seq<Cell>, p: Parser, chunks: seq<seq<byte>>, now: seq<Cell>)
    requires Shaped(p) && chunks != [] && whole == Prepend(done, FeedChunks(p, chunks))
    requires now <= done + FeedBlock(p, chunks[0]).out
    ensures now <= whole.out
  {
    var f, r := FeedBlock(p, chunks[0]).out, FeedChunks(p, chunks).out;
    assert f <= r;
    assert done + f <= done + r;
  }

  /** One more block of a file. */
  lemma NextChunk(whole: Fed, done: seq<Cell>, p: Parser, chunks: seq<seq<byte>>, limit: u32)
    requires Shaped(p) && chunks != [] && whole == Prepend(done, FeedChunks(p, chunks)) && Feedable(p, chunks, limit)
    requires !FeedBlock(p, chunks[0]).end.BadChecksum?
    ensures var f := FeedBlock(p, chunks[0]);
            && whole == Prepend(done + f.out, FeedChunks(f.parser, chunks[1..]))
            && Feedable(f.parser, chunks[1..], limit)
  {
    var f := FeedBlock(p, chunks[0]);
    PrependTwice(done, f.out, FeedChunks(f.parser, chunks[1..]));
  }

  /** If the whole file decodes, and goes into the flash, so does each block. */
  lemma BlockFine(c: Chip, whole: Fed, done: seq<Cell>, p: Parser, chunks: seq<seq<byte>>)
    requires Shaped(p) && chunks != [] && whole == Prepend(done, FeedChunks(p, chunks)) && c.sectors != []
    ensures whole.end.Running? ==> !FeedBlock(p, chunks[0]).end.BadChecksum?
    ensures Inside(c, whole.out) ==> Inside(c, FeedBlock(p, chunks[0]).out)
  {
    var f := FeedBlock(p, chunks[0]).out;
    assert forall i :: 0 <= i < |f| ==> whole.out[|done| + i] == f[i];
  }

  /** An empty block decodes to nothing. */
  lemma EmptyBlock(p: Parser, chunks: seq<seq<byte>>, limit: u32)
    requires Shaped(p) && !p.load && chunks != [] && chunks[0] == []
    ensures FeedChunks(p, chunks) == FeedChunks(p, chunks[1..])
    ensures Feedable(p, chunks, limit) ==> Feedable(p, chunks[1..], limit)
  {
    assert FeedBlock(p, []) == Fed([], p, Running, []);
    var r := FeedChunks(p, chunks[1..]);
    assert [] + r.out == r.out;
  }

  lemma FeedableFirst(p: Parser, chunks: seq<seq<byte>>, limit: u32)
    requires Shaped(p) && chunks != [] && Feedable(p, chunks, limit)
    ensures var f := FeedBlock(p, chunks[0]);
            && |chunks[0]| <= MAX_BLOCK && !f.end.OutOfLine? && Below(f.out, limit)
    ensures !p.load ==> !FeedBlock(p, chunks[0]).parser.load
  {
  }

  /** The blocks before `rest` of a file that decodes as `whole` have been programmed. */
  ghost predicate Between(p: HexProgram, whole: Fed, rest: seq<seq<byte>>)
    requires p.parser.Valid()
    reads p, p.parser, p.parser.line, p.flash
  {
    && p.flash.state.Open? && !p.parser.load
    && whole == Prepend(p.flash.session, FeedChunks(p.parser.State(), rest))
    && Feedable(p.parser.State(), rest, p.Chip().limit)
  }

  /** Nothing goes wrong on the target, the session is not open yet, and every address has an algorithm. */
  ghost predicate Able(flash: FlashAccessor, config: Config)
    requires ValidChip(flash.Chip())
    reads flash, flash.T()
  {
    && flash.T().reliable && flash.state.Closed?
    && FlashDriver.Serves(flash.Chip(), config.regions, FlashDriver.FirstDefault(config.regions))
  }

  method ProgramBlock(p: HexProgram, data: seq<byte>, ghost rest: seq<seq<byte>>, ghost whole: Fed) returns (ok: bool)
    requires p.Valid() && Between(p, whole, [data] + rest) && p.flash.Gathered() && data != []
    modifies p`programAddr, p.parser, p.parser.line, p.decodeBuffer, p.flash, p.flash.buffer
    modifies p.flash.flash`startAddr, p.flash.flash`lastFunc, p.flash.flash`current, p.flash.flash`state
    modifies p.flash.flash.verifyBuf, p.flash.flash.swd, p.T()
    ensures p.Valid() && (old(p.T().noisy) ==> p.T().noisy) && old(p.T().log) <= p.T().log
    ensures p.flash.buffer == old(p.flash.buffer) || fresh(p.flash.buffer)
    ensures ok ==> Between(p, whole, rest) && p.flash.Gathered()
    ensures p.flash.start == old(p.flash.start) && p.flash.began == old(p.flash.began) && p.flash.session <= whole.out
    ensures p.T().reliable ==>
              && p.T().noisy == old(p.T().noisy)
              && (!p.T().noisy && p.flash.flash.Served() && whole.end.Running? && Inside(p.Chip(), whole.out) ==> ok)
    ensures !p.T().noisy && p.T().erases ==> p.T().phase.blank == old(p.T().phase.blank)
    ensures ok <==> p.flash.state.Open? && !FeedBlock(old(p.parser.State()), data).end.BadChecksum?
    ensures !p.flash.state.Closed?
    ensures !ok && p.flash.state.Open? ==> !whole.end.Running?
  {
    hide FeedBlock, PutAll, Quiet, Below, FeedChunks, Feedable, Sound, Describes, DebugTarget.Scan, Kept, Touches;
    ghost var q, done := p.parser.State(), p.flash.session;
    FeedableFirst(q, [data] + rest, p.Chip().limit);
    BlockFine(p.Chip(), whole, done, q, [data] + rest);
    ok := p.Write(data);
    BlockWithin(whole, done, q, [data] + rest, p.flash.session);
    if ok { NextChunk(whole, done, q, [data] + rest, p.Chip().limit); }
  }

  /** Programs a HEX file block by block. `ok` is what the source reports; `closed` is the result of the final
      uninit, which it drops. */
  method ProgramHex(p: HexProgram, config: Config, chunks: seq<seq<byte>>) returns (ok: bool, closed: Option<Err>)
    requires p.Valid() && Describes(config, p.Chip()) && Feedable(HexMachine.RESET, chunks, p.Chip().limit)
    modifies p, p.parser, p.parser.line, p.decodeBuffer, p.flash, p.flash.buffer
    modifies p.flash.flash, p.flash.flash.verifyBuf, p.flash.flash.swd, p.T()
    ensures p.Valid() && old(p.T().log) <= p.T().log
    ensures old(p.flash.state.Closed?) ==> p.flash.state.Closed?
    ensures Outcome(old(p.T().log), p.T(), closed, ok, FeedChunks(HexMachine.RESET, chunks).end.Running?)
    ensures closed.None? ==> p.T().Flash() == old(p.T().Flash())
    ensures ok && !p.T().noisy ==>
              Done(p.Chip(), old(p.T().Flash()), FeedChunks(HexMachine.RESET, chunks).out, p.T().Flash(), closed.value,
                   Silent(p.T().log[|old(p.T().log)|..]))
    ensures Kept(p.Chip(), old(p.T().Flash()), p.T().Flash(), FeedChunks(HexMachine.RESET, chunks).out)
    ensures var whole := FeedChunks(HexMachine.RESET, chunks);
            old(Able(p.flash, config)) && whole.end.Running? && whole.out != [] && Inside(p.Chip(), whole.out) ==>
              ok && closed == Some(NONE) && !p.T().noisy
    ensures !p.T().noisy && p.T().erases ==> p.T().phase.blank == old(p.T().phase.blank)
  {
    hide FeedBlock, PutAll, Quiet, Below, Commit, FeedChunks, Feedable, Orderly, Written, Describes;
    hide DebugTarget.Scan, Kept, Touches, Done;
    hide FlashAccessor.Gathered, Unreleased, Window, Inside, OnlyOpen, Sound, FlashDriver.Serves;
    ghost var c, f, before, whole := p.Chip(), p.T().Flash(), p.T().log, FeedChunks(HexMachine.RESET, chunks);
    closed := None;
    BaseBelowLimit(c);
    KeptSame(c, f, whole.out);
    BeginFile(whole);
    ok := p.Init(config);
    if ok {
      var err;
      ok, err := ProgramOpen(p, chunks, whole);
      closed := Some(err);
      p.flash.SessionSpares(whole.out);
    }
    CountersTell(c, before, p.T().log);
  }

  /** Once the session is open: the blocks, and the close, which is made also if a block fails. */
  method ProgramOpen(p: HexProgram, chunks: seq<seq<byte>>, ghost whole: Fed) returns (ok: bool, closed: Err)
    requires p.Valid() && Between(p, whole, chunks) && p.flash.Gathered()
    modifies p`programAddr, p.parser, p.parser.line, p.decodeBuffer, p.flash, p.flash.buffer
    modifies p.flash.flash`startAddr, p.flash.flash`lastFunc, p.flash.flash`current, p.flash.flash`state
    modifies p.flash.flash.verifyBuf, p.flash.flash.swd, p.T()
    ensures p.Valid() && p.flash.state.Closed? && (old(p.T().noisy) ==> p.T().noisy) && old(p.T().log) <= p.T().log
    ensures Over(p.T().log, closed) && (ok <==> whole.end.Running? && !p.T().phase.failed)
    ensures p.flash.start == old(p.flash.start) && p.flash.session <= whole.out
    ensures ok && !p.T().noisy ==>
              Done(p.Chip(), p.flash.start, whole.out, p.T().Flash(), closed, p.T().phase.calls == old(p.flash.began))
    ensures p.T().reliable ==>
              && p.T().noisy == old(p.T().noisy)
              && (!p.T().noisy && p.flash.flash.Served() && whole.end.Running? && whole.out != []
                  && Inside(p.Chip(), whole.out) ==>
                    ok && closed.NONE?)
    ensures !p.T().noisy && p.T().erases ==> p.T().phase.blank == old(p.T().phase.blank)
  {
    hide FeedBlock, PutAll, Quiet, Below, FeedChunks, Feedable, Describes, DebugTarget.Scan, Kept, Touches, Done;
    ok := ProgramBlocks(p, chunks, whole);
    if ok {
      closed := Close(p);
    } else {
      closed := p.Clean();
    }
  }

  /** The blocks of the file, up to the first one that fails. */
  method ProgramBlocks(p: HexProgram, chunks: seq<seq<byte>>, ghost whole: Fed) returns (ok: bool)
    requires p.Valid() && Between(p, whole, chunks) && p.flash.Gathered()
    modifies p`programAddr, p.parser, p.parser.line, p.decodeBuffer, p.flash, p.flash.buffer
    modifies p.flash.flash`startAddr, p.flash.flash`lastFunc, p.flash.flash`current, p.flash.flash`state
    modifies p.flash.flash.verifyBuf, p.flash.flash.swd, p.T()
    ensures p.Valid() && (old(p.T().noisy) ==> p.T().noisy) && old(p.T().log) <= p.T().log
    ensures p.flash.buffer == old(p.flash.buffer) || fresh(p.flash.buffer)
    ensures p.flash.start == old(p.flash.start) && p.flash.began == old(p.flash.began) && p.flash.session <= whole.out
    ensures ok ==> p.flash.Gathered() && p.flash.session == whole.out
    ensures p.T().reliable ==>
              && p.T().noisy == old(p.T().noisy)
              && (!p.T().noisy && p.flash.flash.Served() && whole.end.Running? && Inside(p.Chip(), whole.out) ==> ok)
    ensures !p.T().noisy && p.T().erases ==> p.T().phase.blank == old(p.T().phase.blank)
    ensures ok <==> p.flash.state.Open? && whole.end.Running?
    ensures !p.flash.state.Closed?
  {
    hide FeedBlock, PutAll, Quiet, Below, FeedChunks, Feedable, Describes, DebugTarget.Scan, Kept, Touches;
    hide FlashAccessor.Valid, FlashAccessor.Gathered, Shaped;
    ok := true;
    var i := 0;
    assert chunks[0..] == chunks;
    while i < |chunks|
      invariant ok && i <= |chunks| && p.Valid() && Between(p, whole, chunks[i..]) && p.flash.Gathered()
      invariant p.flash.buffer == old(p.flash.buffer) || fresh(p.flash.buffer)
      invariant (old(p.T().noisy) ==> p.T().noisy) && old(p.T().log) <= p.T().log
      invariant p.T().reliable ==> p.T().noisy == old(p.T().noisy)
      invariant p.flash.start == old(p.flash.start) && p.flash.began == old(p.flash.began)
      invariant !p.T().noisy && p.T().erases ==> p.T().phase.blank == old(p.T().phase.blank)
    {
      assert chunks[i..] == [chunks[i]] + chunks[i + 1..] && chunks[i..][1..] == chunks[i + 1..];
      if |chunks[i]| > 0 {
        ok := ProgramBlock(p, chunks[i], chunks[i + 1..], whole);
        if !ok { return; }
      } else {
        EmptyBlock(p.parser.State(), chunks[i..], p.Chip().limit);
      }
      i := i + 1;
    }
    EndFile(whole, p.flash.session, p.parser.State(), chunks[i..]);
  }

  method Close(p: HexProgram) returns (closed: Err)
    requires p.Valid() && p.flash.state.Open? && p.flash.Gathered()
    modifies p`programAddr, p.flash, p.flash.buffer
    modifies p.flash.flash`startAddr, p.flash.flash`lastFunc, p.flash.flash`current, p.flash.flash`state
    modifies p.flash.flash.verifyBuf, p.flash.flash.swd, p.T()
    ensures p.Valid() && (old(p.T().noisy) ==> p.T().noisy) && old(p.T().log) <= p.T().log
    ensures p.flash.start == old(p.flash.start) && p.flash.session == old(p.flash.session)
    ensures !p.T().noisy ==>
              Done(p.Chip(), p.flash.start, p.flash.session, p.T().Flash(), closed,
                   p.T().phase.calls == old(p.flash.began))
    ensures p.T().reliable ==>
              p.T().noisy == old(p.T().noisy) && (!p.T().noisy && p.flash.session != [] ==> closed.NONE?)
    ensures !p.T().noisy && p.T().erases ==> p.T().phase.blank == old(p.T().phase.blank)
    ensures p.flash.state.Closed? && p.T().phase.failed == old(p.T().phase.failed)
    ensures Over(p.T().log, closed)
  {
    hide PutAll, Quiet, Commit, Orderly, Written, Describes, DebugTarget.Scan, Kept, Touches, OnlyOpen, Done;
    ghost var c, f, xs := p.Chip(), p.flash.start, p.flash.session;
    closed := p.Clean();
    if !p.T().noisy { Closing(c, f, xs, p.T().Flash(), closed, p.T().phase.calls == old(p.flash.began)); }
  }

  lemma BeginFile(whole: Fed)
    ensures whole == Prepend([], whole)
  {
    assert [] + whole.out == whole.out;
  }

  lemma EndFile(whole: Fed, done: seq<Cell>, p: Parser, rest: seq<seq<byte>>)
    requires Shaped(p) && rest == [] && whole == Prepend(done, FeedChunks(p, rest))
    ensures whole.out == done && whole.end.Running?
  {
    assert done + [] == done;
  }

  /** A second run over the result of a first one finds nothing to do. */
  lemma ReflashIdle(c: Chip, f: seq<byte>, xs: seq<Cell>, g: seq<byte>)
    requires Flashed(c, f, xs, g)
    ensures Flashed(c, g, xs, g)
  {
    Idempotent(c, f, xs);
  }

  /** The image `xs`, all inside the flash, is there exactly, and nothing else has changed. */
  ghost predicate Holding(c: Chip, f: seq<byte>, xs: seq<Cell>, g: seq<byte>) {
    Window(c, f) && Inside(c, xs) && Holds(c, f, xs, g)
  }

  lemma AscendingFlashed(c: Chip, f: seq<byte>, xs: seq<Cell>, g: seq<byte>)
    requires ValidChip(c) && Ascending(xs)
    ensures Flashed(c, f, xs, g) <==> Holding(c, f, xs, g)
    ensures Flashed(c, f, xs, g) ==> Orderly(c, xs)
  {
    if Window(c, f) && Inside(c, xs) {
      AscendingOrderly(c, xs);
      OrderlyHoldsOnly(c, f, xs, g);
    }
  }

  /** `Done` for an ascending image. */
  ghost predicate ImageDone(c: Chip, f: seq<byte>, xs: seq<Cell>, g: seq<byte>, closed: Err, quiet: bool) {
    && Settled(c, f, xs, g)
    && (closed.NONE? || EndsSector(c, xs) || LastThere(c, f, xs) ==> Holding(c, f, xs, g))
    && (Holding(c, f, xs, f) ==> quiet)
  }

  lemma AscendingDone(c: Chip, f: seq<byte>, xs: seq<Cell>, g: seq<byte>, closed: Err, quiet: bool)
    requires ValidChip(c) && Ascending(xs) && Done(c, f, xs, g, closed, quiet)
    ensures ImageDone(c, f, xs, g, closed, quiet)
  {
    hide Flashed, Holding, Orderly, Ascending, LastThere, Written, PutAll;
    AscendingFlashed(c, f, xs, g);
    AscendingFlashed(c, f, xs, f);
    AscendingOrderly(c, xs);
    FinalEarly(c, f, xs);
  }

  /** Programs a HEX file of ascending records, cut into blocks in any way. If success is reported, every byte is
      where the format puts it, the rest of each touched sector is 0xFF, and all other sectors are as before; for
      the sector of the last byte, unless this ends it or the sector was so before, that takes a close without
      error as well. If the flash held just that already, no routine was run. */
  method ProgramHexFile(p: HexProgram, config: Config, chunks: seq<seq<byte>>, ghost lines: seq<Line>)
    returns (ok: bool, closed: Option<Err>)
    requires p.Valid() && Describes(config, p.Chip())
    requires ValidLines(lines) && Flat(chunks) == Text(lines)
    requires forall i :: 0 <= i < |chunks| ==> |chunks[i]| <= MAX_BLOCK
    requires ValidRecords(Records(lines)) && EndsOnce(Records(lines)) && Regular(FromLinear(0), false, Records(lines))
    requires var xs := Meaning(FromLinear(0), Records(lines)); Ascending(xs) && Below(xs, p.Chip().limit)
    modifies p, p.parser, p.parser.line, p.decodeBuffer, p.flash, p.flash.buffer
    modifies p.flash.flash, p.flash.flash.verifyBuf, p.flash.flash.swd, p.T()
    ensures p.Valid() && old(p.T().log) <= p.T().log
    ensures old(p.flash.state.Closed?) ==> p.flash.state.Closed?
    ensures Outcome(old(p.T().log), p.T(), closed, ok, true)
    ensures closed.None? ==> p.T().Flash() == old(p.T().Flash())
    ensures ok && !p.T().noisy ==>
              ImageDone(p.Chip(), old(p.T().Flash()), Meaning(FromLinear(0), Records(lines)), p.T().Flash(),
                        closed.value, Silent(p.T().log[|old(p.T().log)|..]))
    ensures Kept(p.Chip(), old(p.T().Flash()), p.T().Flash(), Meaning(FromLinear(0), Records(lines)))
    ensures var c, xs, f := p.Chip(), Meaning(FromLinear(0), Records(lines)), old(p.T().Flash());
            old(Able(p.flash, config)) && xs != [] && Inside(c, xs) ==>
              ok && closed == Some(NONE) && Holding(c, f, xs, p.T().Flash())
    ensures !p.T().noisy && p.T().erases ==> p.T().phase.blank == old(p.T().phase.blank)
  {
    hide Kept, Touches, Below, FeedChunks, Feedable, Orderly, Ascending, Holding, Flashed, Done, Settled, EndsSector;
    hide Meaning, Regular, Records, Text, Describes, DebugTarget.Scan;
    ghost var c, xs, f := p.Chip(), Meaning(FromLinear(0), Records(lines)), p.T().Flash();
    HexRoundTrip(lines, chunks);
    RunningFeedable(HexMachine.RESET, chunks, c.limit);
    ok, closed := ProgramHex(p, config, chunks);
    if ok && !p.T().noisy {
      AscendingDone(c, f, xs, p.T().Flash(), closed.value, Silent(p.T().log[|old(p.T().log)|..]));
    }
  }

  // ---- raw images ----

  /** Programs a raw image block by block at `addr`. */
  method ProgramBinary(p: BinaryProgram, config: Config, addr: u32, chunks: seq<seq<byte>>)
    returns (ok: bool, closed: Option<Err>)
    requires p.flash.Valid() && Describes(config, p.Chip()) && addr + |Flat(chunks)| <= p.Chip().limit
    modifies p, p.flash, p.flash.buffer
    modifies p.flash.flash, p.flash.flash.verifyBuf, p.flash.flash.swd, p.T()
    ensures p.flash.Valid() && old(p.T().log) <= p.T().log
    ensures old(p.flash.state.Closed?) ==> p.flash.state.Closed?
    ensures Outcome(old(p.T().log), p.T(), closed, ok, true)
    ensures closed.None? ==> p.T().Flash() == old(p.T().Flash())
    ensures addr == 0 ==> closed.None? && p.T().log == old(p.T().log)
    ensures ok && !p.T().noisy ==>
              ImageDone(p.Chip(), old(p.T().Flash()), Cells(addr, Flat(chunks)), p.T().Flash(), closed.value,
                        Silent(p.T().log[|old(p.T().log)|..]))
    ensures Kept(p.Chip(), old(p.T().Flash()), p.T().Flash(), Cells(addr, Flat(chunks)))
    ensures var c, xs, f := p.Chip(), Cells(addr, Flat(chunks)), old(p.T().Flash());
            old(Able(p.flash, config)) && Base(c) <= addr && addr != 0 && xs != [] ==>
              ok && closed == Some(NONE) && Holding(c, f, xs, p.T().Flash())
    ensures !p.T().noisy && p.T().erases ==> p.T().phase.blank == old(p.T().phase.blank)
  {
    hide PutAll, Quiet, Commit, Orderly, Written, Describes, DebugTarget.Scan, Holding, Ascending, Kept, Touches, Flat;
    hide Settled, EndsSector, Done;
    hide Unreleased;
    ghost var c, f, before := p.Chip(), p.T().Flash(), p.T().log;
    closed := None;
    BaseBelowLimit(c);
    KeptSame(c, f, Cells(addr, Flat(chunks)));
    ok := p.Init(config, addr);
    if ok {
      var err;
      ok, err := ProgramStream(p, chunks);
      closed := Some(err);
      p.flash.SessionSpares(Cells(addr, Flat(chunks)));
    }
    CountersTell(c, before, p.T().log);
  }

  /** Once the session is open: the pieces, and the close, which is made also if a piece fails. */
  method ProgramStream(p: BinaryProgram, chunks: seq<seq<byte>>) returns (ok: bool, closed: Err)
    requires p.flash.Valid() && p.flash.state.Open? && p.Streamed() && p.stream == []
    requires p.origin + |Flat(chunks)| <= p.Chip().limit
    modifies p, p.flash, p.flash.buffer
    modifies p.flash.flash`startAddr, p.flash.flash`lastFunc, p.flash.flash`current, p.flash.flash`state
    modifies p.flash.flash.verifyBuf, p.flash.flash.swd, p.T()
    ensures p.flash.Valid() && p.flash.state.Closed?
    ensures (old(p.T().noisy) ==> p.T().noisy) && old(p.T().log) <= p.T().log
    ensures Over(p.T().log, closed) && (ok <==> !p.T().phase.failed)
    ensures p.flash.start == old(p.flash.start) && p.flash.session <= Cells(old(p.origin), Flat(chunks))
    ensures ok && !p.T().noisy ==>
              ImageDone(p.Chip(), p.flash.start, Cells(old(p.origin), Flat(chunks)), p.T().Flash(), closed,
                        p.T().phase.calls == old(p.flash.began))
    ensures p.T().reliable ==>
              && p.T().noisy == old(p.T().noisy)
              && (!p.T().noisy && p.flash.flash.Served() && Base(p.Chip()) <= old(p.origin) && Flat(chunks) != [] ==>
                    ok && closed.NONE?)
    ensures !p.T().noisy && p.T().erases ==> p.T().phase.blank == old(p.T().phase.blank)
  {
    hide PutAll, Quiet, Describes, DebugTarget.Scan, Kept, Touches, Flat, Sorted, Aligned, Holding, ImageDone;
    ok := ProgramPieces(p, chunks);
    if ok {
      closed := CloseBinary(p);
    } else {
      closed := p.Clean();
    }
  }

  /** The pieces of the image, up to the first one that fails. */
  method ProgramPieces(p: BinaryProgram, chunks: seq<seq<byte>>) returns (ok: bool)
    requires p.flash.Valid() && p.flash.state.Open? && p.Streamed() && p.stream == []
    requires p.origin + |Flat(chunks)| <= p.Chip().limit
    modifies p, p.flash, p.flash.buffer
    modifies p.flash.flash`startAddr, p.flash.flash`lastFunc, p.flash.flash`current, p.flash.flash`state
    modifies p.flash.flash.verifyBuf, p.flash.flash.swd, p.T()
    ensures p.flash.Valid() && (old(p.T().noisy) ==> p.T().noisy) && old(p.T().log) <= p.T().log
    ensures p.flash.buffer == old(p.flash.buffer) || fresh(p.flash.buffer)
    ensures p.origin == old(p.origin) && p.flash.start == old(p.flash.start) && p.flash.began == old(p.flash.began)
    ensures p.flash.session <= Cells(old(p.origin), Flat(chunks))
    ensures ok ==> p.flash.state.Open? && p.Streamed() && p.stream == Flat(chunks)
    ensures p.T().reliable ==>
              && p.T().noisy == old(p.T().noisy)
              && (!p.T().noisy && p.flash.flash.Served() && Base(p.Chip()) <= p.origin ==> ok)
    ensures !p.T().noisy && p.T().erases ==> p.T().phase.blank == old(p.T().phase.blank)
    ensures ok <==> p.flash.state.Open?
    ensures !p.flash.state.Closed?
  {
    hide PutAll, Quiet, Describes, DebugTarget.Scan, Kept, Touches, Flat, Sorted, Aligned;
    AllPieces(chunks);
    ok := true;
    var i := 0;
    while i < |chunks|
      invariant ok && i <= |chunks| && p.flash.Valid() && p.flash.state.Open? && p.Streamed()
      invariant p.flash.buffer == old(p.flash.buffer) || fresh(p.flash.buffer)
      invariant (old(p.T().noisy) ==> p.T().noisy) && old(p.T().log) <= p.T().log
      invariant p.T().reliable ==> p.T().noisy == old(p.T().noisy)
      invariant Flat(chunks) == p.stream + Flat(chunks[i..])
      invariant p.origin == old(p.origin) && p.flash.start == old(p.flash.start) && p.flash.began == old(p.flash.began)
      invariant !p.T().noisy && p.T().erases ==> p.T().phase.blank == old(p.T().phase.blank)
    {
      NextPiece(p.origin, chunks, i, p.stream);
      if |chunks[i]| > 0 {
        ok := p.Write(chunks[i]);
        if !ok { return; }
      }
      i := i + 1;
    }
    assert p.stream + [] == p.stream;
  }

  lemma AllPieces(chunks: seq<seq<byte>>)
    ensures Flat(chunks) == [] + Flat(chunks[0..]) && Flat(chunks[|chunks|..]) == []
  {
    assert chunks[0..] == chunks;
  }

  lemma NextPiece(addr: u32, chunks: seq<seq<byte>>, i: nat, done: seq<byte>)
    requires i < |chunks| && Flat(chunks) == done + Flat(chunks[i..]) && addr + |Flat(chunks)| <= ADDRESS_SPACE
    ensures Flat(chunks) == done + chunks[i] + Flat(chunks[i + 1..])
    ensures Cells(addr, done + chunks[i]) <= Cells(addr, Flat(chunks))
    ensures chunks[i] == [] ==> done + chunks[i] == done
  {
    assert chunks[i..][1..] == chunks[i + 1..];
    assert done + (chunks[i] + Flat(chunks[i + 1..])) == done + chunks[i] + Flat(chunks[i + 1..]);
    CellsAppend(addr, done + chunks[i], Flat(chunks[i + 1..]));
  }

  method CloseBinary(p: BinaryProgram) returns (closed: Err)
    requires p.flash.Valid() && p.flash.state.Open? && p.Streamed()
    modifies p`programAddr, p.flash, p.flash.buffer
    modifies p.flash.flash`startAddr, p.flash.flash`lastFunc, p.flash.flash`current, p.flash.flash`state
    modifies p.flash.flash.verifyBuf, p.flash.flash.swd, p.T()
    ensures p.flash.Valid() && (old(p.T().noisy) ==> p.T().noisy) && old(p.T().log) <= p.T().log
    ensures p.flash.start == old(p.flash.start) && p.flash.session == old(p.flash.session)
    ensures !p.T().noisy ==>
              ImageDone(p.Chip(), p.flash.start, p.flash.session, p.T().Flash(), closed,
                        p.T().phase.calls == old(p.flash.began))
    ensures p.T().reliable ==>
              p.T().noisy == old(p.T().noisy) && (!p.T().noisy && p.flash.session != [] ==> closed.NONE?)
    ensures !p.T().noisy && p.T().erases ==> p.T().phase.blank == old(p.T().phase.blank)
    ensures p.flash.state.Closed? && p.T().phase.failed == old(p.T().phase.failed)
    ensures Over(p.T().log, closed)
  {
    hide PutAll, Quiet, Commit, Orderly, Written, Describes, DebugTarget.Scan, Kept, Touches, OnlyOpen, Done;
    hide Settled, EndsSector, Holding, Flashed;
    ghost var c, f, xs, was := p.Chip(), p.flash.start, p.flash.session, p.flash.began;
    closed := p.Clean();
    if !p.T().noisy {
      Closing(c, f, xs, p.T().Flash(), closed, p.T().phase.calls == was);
      AscendingDone(c, f, xs, p.T().Flash(), closed, p.T().phase.calls == was);
    }
  }
}
