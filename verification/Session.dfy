/** What a lawful log of a programming session says, event by event; and the RAM layout that keeps a
    downloaded algorithm intact. */
module Session {
  import opened Words
  import opened FlashIface
  import opened DebugTarget

  lemma {:induction false} LawfulPrefix(c: Chip, log: seq<Event>, i: nat)
    requires Scan(c, log).lawful && i <= |log|
    ensures Scan(c, log[..i]).lawful
    ensures i < |log| ==> Lawful(c, Scan(c, log[..i]), log[i])
    decreases |log| - i
  {
    if i < |log| {
      LawfulPrefix(c, log, i + 1);
      assert log[..i + 1][..i] == log[..i];
    } else {
      assert log[..i] == log;
    }
  }

  lemma ScanStep(c: Chip, log: seq<Event>, i: nat)
    requires i < |log|
    ensures Scan(c, log[..i + 1]) == Next(c, Scan(c, log[..i]), log[i])
  {
    assert log[..i + 1][..i] == log[..i];
  }

  predicate UsesFlash(e: Event) {
    e.Call? && (e.routine.EraseSector? || e.routine.ProgramPage? || e.routine.Verify?)
  }

  /** `log[j]` is a successful Init of `a`; nothing after it and before `i` closes the function or
      replaces the algorithm. */
  predicate OpenedBy(log: seq<Event>, i: nat, j: nat, a: Algo)
    requires i <= |log|
  {
    && j < i
    && log[j].Call? && log[j].routine.Init? && log[j].ok && log[j].algo == a
    && forall k :: j < k < i ==> UsesFlash(log[k]) || log[k].WriteError?
  }

  lemma NothingOpen(c: Chip, log: seq<Event>)
    ensures !Scan(c, log[..0]).open
  {
  }

  lemma {:induction false} OpenHasInit(c: Chip, log: seq<Event>, i: nat) returns (j: nat)
    requires i <= |log| && Scan(c, log).lawful
    requires Scan(c, log[..i]).open && !Scan(c, log[..i]).stuck && Scan(c, log[..i]).algo.Some?
    ensures OpenedBy(log, i, j, Scan(c, log[..i]).algo.value)
    decreases i
  {
    hide Scan;
    NothingOpen(c, log);
    LawfulPrefix(c, log, i - 1);
    ScanStep(c, log, i - 1);
    var e := log[i - 1];
    if e.Call? && e.routine.Init? {
      j := i - 1;
    } else {
      j := OpenHasInit(c, log, i - 1);
    }
  }

  lemma {:induction false} FailedUntilReset(c: Chip, log: seq<Event>, i: nat, k: nat)
    requires k < i <= |log| && log[k].WriteError?
    ensures Scan(c, log[..i]).failed || exists m :: k < m < i && log[m].Reset?
    decreases i
  {
    ScanStep(c, log, i - 1);
    if k < i - 1 { FailedUntilReset(c, log, i - 1, k); }
  }

  /** A write error is reported at `k`, and there is no reset behind it. */
  predicate Unforgiven(log: seq<Event>, k: nat)
    requires k < |log|
  {
    log[k].WriteError? && forall m :: k < m < |log| ==> !log[m].Reset?
  }

  /** `Phase.failed` tells whether a write error has been reported since the last reset. */
  lemma {:induction false} FailedMeans(c: Chip, log: seq<Event>)
    ensures Scan(c, log).failed <==> exists k :: 0 <= k < |log| && Unforgiven(log, k)
    decreases |log|
  {
    if log != [] {
      var n := |log| - 1;
      var rest := log[..n];
      FailedMeans(c, rest);
      ScanStep(c, log, n);
      assert log[..n + 1] == log;
      assert log[n].WriteError? ==> Unforgiven(log, n);
      assert forall k :: 0 <= k < n ==> (Unforgiven(log, k) <==> Unforgiven(rest, k) && !log[n].Reset?);
    }
  }

  /** In a lawful log every EraseSector, ProgramPage and Verify lies after a successful Init of the same
      algorithm with no UnInit, download or reset in between; it finds the algorithm intact in RAM, and no
      write to the target under way; an erase names the start of a sector; and after a reported write error
      there is none before the next reset. */
  lemma LawfulCall(c: Chip, log: seq<Event>, i: nat)
    requires Scan(c, log).lawful && i < |log| && UsesFlash(log[i])
    ensures exists j :: OpenedBy(log, i, j, log[i].algo)
    ensures log[i].resident && log[i].settled
    ensures log[i].routine.EraseSector? ==> SizeAt(c, log[i].addr) > 0 && SectorOf(c, log[i].addr) == log[i].addr
    ensures forall k :: 0 <= k < i && log[k].WriteError? ==> exists m :: k < m < i && log[m].Reset?
  {
    LawfulPrefix(c, log, i);
    var j := OpenHasInit(c, log, i);
    forall k | 0 <= k < i && log[k].WriteError? ensures exists m :: k < m < i && log[m].Reset? {
      FailedUntilReset(c, log, i, k);
    }
  }

  /** A reset, or an UnInit that succeeds. */
  predicate Closes(e: Event) {
    e.Reset? || (e.Call? && e.routine.UnInit? && e.ok)
  }

  lemma {:induction false} OpenUntilClosed(c: Chip, log: seq<Event>, i: nat, j: nat)
    requires Scan(c, log).lawful && j < i <= |log|
    requires log[j].Call? && log[j].routine.Init? && log[j].ok
    ensures Scan(c, log[..i]).open || exists k :: j < k < i && Closes(log[k])
    decreases i
  {
    LawfulPrefix(c, log, i - 1);
    ScanStep(c, log, i - 1);
    if j < i - 1 {
      OpenUntilClosed(c, log, i - 1, j);
    }
  }

  /** In a lawful log an algorithm is downloaded, and the target released, only when every function that
      was opened has been closed: by a reset, or by an UnInit that succeeded. */
  lemma LawfulDownload(c: Chip, log: seq<Event>, i: nat, j: nat)
    requires Scan(c, log).lawful && j < i < |log| && (log[i].Download? || log[i].Run?)
    requires log[j].Call? && log[j].routine.Init? && log[j].ok
    ensures exists k :: j < k < i && Closes(log[k])
  {
    LawfulPrefix(c, log, i);
    OpenUntilClosed(c, log, i, j);
  }

  predicate Unreleased(more: seq<Event>) {
    forall i :: 0 <= i < |more| ==> !more[i].Run?
  }

  /** `Phase.releases` tells whether the target was released. */
  lemma {:induction false} ReleasesOnlyGrow(c: Chip, log: seq<Event>, more: seq<Event>)
    ensures Scan(c, log).releases <= Scan(c, log + more).releases
    ensures Scan(c, log).releases == Scan(c, log + more).releases <==> Unreleased(more)
    decreases |more|
  {
    hide Scan;
    if more == [] {
      assert log + more == log;
    } else {
      var n := |more| - 1;
      ReleasesOnlyGrow(c, log, more[..n]);
      assert log + more == log + more[..n] + [more[n]];
      ReleaseCounted(c, log + more[..n], more[n]);
      assert Unreleased(more) <==> Unreleased(more[..n]) && !more[n].Run?;
    }
  }

  lemma ReleaseCounted(c: Chip, log: seq<Event>, e: Event)
    ensures Scan(c, log + [e]).releases == Scan(c, log).releases + (if e.Run? then 1 else 0)
  {
    assert (log + [e])[..|log|] == log;
  }

  predicate Silent(more: seq<Event>) {
    forall i :: 0 <= i < |more| ==> !more[i].Call?
  }

  /** `Phase.calls` tells whether any routine was run. */
  lemma {:induction false} CallsOnlyGrow(c: Chip, log: seq<Event>, more: seq<Event>)
    ensures Scan(c, log).calls <= Scan(c, log + more).calls
    ensures Scan(c, log).calls == Scan(c, log + more).calls <==> Silent(more)
    decreases |more|
  {
    hide Scan;
    if more == [] {
      assert log + more == log;
    } else {
      var n := |more| - 1;
      CallsOnlyGrow(c, log, more[..n]);
      assert log + more == log + more[..n] + [more[n]];
      CallCounted(c, log + more[..n], more[n]);
      assert Silent(more) <==> Silent(more[..n]) && !more[n].Call?;
    }
  }

  lemma CallCounted(c: Chip, log: seq<Event>, e: Event)
    ensures Scan(c, log + [e]).calls == Scan(c, log).calls + (if e.Call? then 1 else 0)
  {
    assert (log + [e])[..|log|] == log;
  }

  /** The two counters tell of what a log has grown by whether a routine was run in it, and whether the target was
      released. */
  lemma CountersTell(c: Chip, before: seq<Event>, log: seq<Event>)
    requires before <= log
    ensures Scan(c, log).calls == Scan(c, before).calls <==> Silent(log[|before|..])
    ensures Scan(c, log).releases == Scan(c, before).releases <==> Unreleased(log[|before|..])
  {
    CallsOnlyGrow(c, before, log[|before|..]);
    ReleasesOnlyGrow(c, before, log[|before|..]);
    assert before + log[|before|..] == log;
  }

  /** `Phase.blank` says of the whole log that only blank bytes were programmed. */
  lemma {:induction false} BlankMeans(c: Chip, log: seq<Event>)
    ensures Scan(c, log).blank <==>
            forall i :: 0 <= i < |log| && log[i].Call? && log[i].routine.ProgramPage? ==> log[i].blank
    decreases |log|
  {
    if log != [] {
      BlankMeans(c, log[..|log| - 1]);
    }
  }

  // ---- the layout computed when an algorithm is extracted ----

  const STACK_SIZE: nat := 0x800
  const HEADER_SIZE: nat := 32

  /** The blob is the header and the code; the stack grows down from the next multiple of 0x100 plus
      0x800, where the page buffer begins. */
  function Extracted(id: nat, hasVerify: bool, ramStart: u32, header: seq<byte>, code: seq<byte>, pageSize: u32): Algo
    requires |header| == HEADER_SIZE
    requires ramStart + HEADER_SIZE + |code| + 0xff + STACK_SIZE < ADDRESS_SPACE
  {
    var size := |header| + |code|;
    var sp: u32 := (ramStart + size + 0xff) / 0x100 * 0x100 + STACK_SIZE;
    Algo(id, hasVerify, sp, sp, pageSize, ramStart, header + code)
  }

  /** The page buffer starts on a multiple of 0x100, at least 0x800 bytes after the blob, so that an
      extracted algorithm whose RAM is not flash is well placed. */
  lemma ExtractedIsPlaced(c: Chip, id: nat, hasVerify: bool, ramStart: u32, header: seq<byte>, code: seq<byte>,
                          pageSize: u32)
    requires ValidChip(c) && |header| == HEADER_SIZE && pageSize > 0
    requires ramStart + HEADER_SIZE + |code| + 0xff + STACK_SIZE + pageSize < ADDRESS_SPACE
    requires c.limit <= ramStart || ramStart + HEADER_SIZE + |code| + 0xff + STACK_SIZE + pageSize <= Base(c)
    ensures var a := Extracted(id, hasVerify, ramStart, header, code, pageSize);
            && Placed(c, a)
            && a.blob[..32] == header && a.blob[32..] == code
            && a.algoStart == ramStart && a.stackPointer == a.programBuffer && a.programBufferSize == pageSize
            && a.programBuffer % 0x100 == 0
            && a.algoStart + |a.blob| + 0x800 <= a.programBuffer < a.algoStart + |a.blob| + 0x900
  {
    var n := ramStart + |header| + |code|;
    var q := (n + 0xff) / 0x100;
    assert n <= q * 0x100 < n + 0x100;
  }
}
