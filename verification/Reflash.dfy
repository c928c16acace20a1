/** Writing an image that the flash already holds commits nothing but what is there. */
module Reflash {
  import opened Words
  import opened FlashIface
  import opened FlashModel
  import opened FlashResult

  /** Where a session touches the flash, its result does not depend on what was there before. */
  lemma {:induction false} TouchedViewIndependent(c: Chip, f: seq<byte>, g: seq<byte>, xs: seq<Cell>, a: u32)
    requires Window(c, f) && Window(c, g) && Inside(c, xs) && InFlash(c, a)
    ensures View(c, f, xs, a) == if Touches(c, xs, a) then View(c, g, xs, a) else f[a - Base(c)]
    decreases |xs|
  {
    if xs != [] {
      var n := |xs| - 1;
      var before := xs[..n];
      TouchedViewIndependent(c, f, g, before, a);
      assert forall i :: 0 <= i < n ==> before[i] == xs[i];
      assert Touches(c, xs, a) <==> Touches(c, before, a) || Together(c, xs[n].addr, a);
      if Together(c, xs[n].addr, a) && before != [] && !Fresh(c, before, xs[n].addr) {
        assert Together(c, before[n - 1].addr, a);
      }
    }
  }

  /** Flashing the same writes a second time leaves the flash as the first time did. */
  lemma Idempotent(c: Chip, f: seq<byte>, xs: seq<Cell>)
    requires Window(c, f) && Inside(c, xs)
    ensures Written(c, Written(c, f, xs), xs) == Written(c, f, xs)
  {
    var g := Written(c, f, xs);
    var h := Written(c, g, xs);
    forall k | 0 <= k < |g| ensures h[k] == g[k] {
      var a: u32 := Base(c) + k;
      WrittenView(c, f, xs, a);
      WrittenView(c, g, xs, a);
      TouchedViewIndependent(c, g, f, xs, a);
    }
  }

  /** In an orderly session a sector is not written again once it has been left or completed. */
  lemma {:induction false} NoReturn(c: Chip, xs: seq<Cell>, i: nat, k: nat, j: nat)
    requires ValidChip(c) && Inside(c, xs) && Orderly(c, xs)
    requires i < k <= j < |xs|
    requires !Together(c, xs[k].addr, xs[i].addr) || (k == i + 1 && LastOfSector(c, xs[i].addr))
    ensures !Together(c, xs[j].addr, xs[i].addr)
    decreases j - k
  {
    assert !Reopens(c, xs, i, j);
    assert xs[..j][j - 1] == xs[j - 1];
    if k < j { NoReturn(c, xs, i, k, j - 1); }
  }

  lemma {:induction false} LaterElsewhere(c: Chip, f: seq<byte>, xs: seq<Cell>, n: nat, a: u32)
    requires Window(c, f) && Inside(c, xs) && InFlash(c, a) && n <= |xs|
    requires forall j :: n <= j < |xs| ==> !Together(c, xs[j].addr, a)
    ensures View(c, f, xs[..n], a) == View(c, f, xs, a)
    decreases |xs| - n
  {
    if n < |xs| {
      LaterElsewhere(c, f, xs, n + 1, a);
      assert xs[..n + 1][..n] == xs[..n];
    } else {
      assert xs[..n] == xs;
    }
  }

  /** Where no later byte goes, the store already shows what the flash will hold. */
  lemma ShownSettled(c: Chip, f: seq<byte>, xs: seq<Cell>, n: nat, a: u32)
    requires Window(c, f) && Inside(c, xs) && Written(c, f, xs) == f && n <= |xs| && InFlash(c, a)
    requires forall j :: n <= j < |xs| ==> !Together(c, xs[j].addr, a)
    ensures Shown(c, PutAll(c, Store(f, Idle), xs[..n]), a) == f[a - Base(c)]
  {
    SessionShows(c, f, xs[..n], a);
    LaterElsewhere(c, f, xs, n, a);
    WrittenView(c, f, xs, a);
  }

  lemma PutElsewhere(c: Chip, m: Store, x: Cell, a: u32)
    requires Sound(c, m) && InFlash(c, x.addr) && InFlash(c, a)
    requires !(Together(c, x.addr, a) && LastOfSector(c, x.addr))
    ensures Put(c, m, x).flash[a - Base(c)] == Leave(c, m, x.addr).flash[a - Base(c)]
  {
    GatherCase(c, m, x.addr);
    SameSector(c, x.addr, a);
  }

  lemma LeaveSettled(c: Chip, f: seq<byte>, xs: seq<Cell>, n: nat)
    requires Window(c, f) && Inside(c, xs) && Orderly(c, xs) && Written(c, f, xs) == f && n < |xs|
    requires PutAll(c, Store(f, Idle), xs[..n]).flash == f
    ensures Leave(c, PutAll(c, Store(f, Idle), xs[..n]), xs[n].addr).flash == f
  {
    var m := PutAll(c, Store(f, Idle), xs[..n]);
    var l := Leave(c, m, xs[n].addr);
    forall k | 0 <= k < |f| ensures l.flash[k] == f[k] {
      var a: u32 := Base(c) + k;
      if OpenAt(c, m, a) && !OpenAt(c, m, xs[n].addr) {
        CommitShows(c, m, a);
        LeftForGood(c, f, xs, n, a);
        ShownSettled(c, f, xs, n, a);
      }
    }
  }

  lemma LeftForGood(c: Chip, f: seq<byte>, xs: seq<Cell>, n: nat, a: u32)
    requires Window(c, f) && Inside(c, xs) && Orderly(c, xs) && n < |xs| && InFlash(c, a)
    requires OpenAt(c, PutAll(c, Store(f, Idle), xs[..n]), a)
    requires !OpenAt(c, PutAll(c, Store(f, Idle), xs[..n]), xs[n].addr)
    ensures forall j :: n <= j < |xs| ==> !Together(c, xs[j].addr, a)
  {
    SessionShows(c, f, xs[..n], a);
    SessionShows(c, f, xs[..n], xs[n].addr);
    assert xs[..n][n - 1] == xs[n - 1];
    assert Together(c, xs[n - 1].addr, a);
    forall j | n <= j < |xs| ensures !Together(c, xs[j].addr, a) {
      NoReturn(c, xs, n - 1, n, j);
    }
  }

  /** One more byte of a settled session leaves the flash alone. */
  lemma StepSettled(c: Chip, f: seq<byte>, xs: seq<Cell>, n: nat)
    requires Window(c, f) && Inside(c, xs) && Orderly(c, xs) && Written(c, f, xs) == f && n < |xs|
    requires PutAll(c, Store(f, Idle), xs[..n]).flash == f
    ensures PutAll(c, Store(f, Idle), xs[..n + 1]) == Put(c, PutAll(c, Store(f, Idle), xs[..n]), xs[n])
    ensures PutAll(c, Store(f, Idle), xs[..n + 1]).flash == f
  {
    var m, x := PutAll(c, Store(f, Idle), xs[..n]), xs[n];
    assert xs[..n + 1] == xs[..n] + [x];
    PutAllLast(c, Store(f, Idle), xs[..n], x);
    LeaveSettled(c, f, xs, n);
    forall k | 0 <= k < |f| ensures Put(c, m, x).flash[k] == f[k] {
      var a: u32 := Base(c) + k;
      if Together(c, x.addr, a) && LastOfSector(c, x.addr) {
        forall j | n + 1 <= j < |xs| ensures !Together(c, xs[j].addr, a) {
          NoReturn(c, xs, n, n + 1, j);
        }
        ShownSettled(c, f, xs, n + 1, a);
        PutOpens(c, m, x, a);
      } else {
        PutElsewhere(c, m, x, a);
      }
    }
  }

  lemma {:induction false} SettledFrom(c: Chip, f: seq<byte>, xs: seq<Cell>, n: nat)
    requires Window(c, f) && Inside(c, xs) && Orderly(c, xs) && Written(c, f, xs) == f && n <= |xs|
    requires PutAll(c, Store(f, Idle), xs[..n]).flash == f
    ensures Quiet(c, PutAll(c, Store(f, Idle), xs[..n]), xs[n..])
    decreases |xs| - n
  {
    if n < |xs| {
      LeaveSettled(c, f, xs, n);
      StepSettled(c, f, xs, n);
      SettledFrom(c, f, xs, n + 1);
      assert xs[n..][1..] == xs[n + 1..];
    }
  }

  /** If the flash already holds the image, every commit of the session is a repetition. */
  lemma SettledQuiet(c: Chip, f: seq<byte>, xs: seq<Cell>)
    requires Window(c, f) && Inside(c, xs) && Orderly(c, xs) && Written(c, f, xs) == f
    ensures Quiet(c, Store(f, Idle), xs)
  {
    assert xs[..0] == [] && xs[0..] == xs;
    SettledFrom(c, f, xs, 0);
  }

  // ---- what is there already need not be committed ----

  /** The sector of the last byte holds already what `xs` is to leave there. */
  ghost predicate LastThere(c: Chip, f: seq<byte>, xs: seq<Cell>) {
    && Window(c, f) && Inside(c, xs)
    && forall a: u32 :: xs != [] && InFlash(c, a) && Together(c, xs[|xs| - 1].addr, a) ==>
         Written(c, f, xs)[a - Base(c)] == f[a - Base(c)]
  }

  lemma LeaveElsewhere(c: Chip, m: Store, x: u32, a: u32)
    requires Sound(c, m) && InFlash(c, a)
    ensures OpenAt(c, m, x) || !OpenAt(c, m, a) ==> Leave(c, m, x).flash[a - Base(c)] == m.flash[a - Base(c)]
    ensures !OpenAt(c, m, x) ==> Leave(c, m, x).flash[a - Base(c)] == Shown(c, m, a)
  {
    CommitShows(c, m, a);
  }

  /** In an orderly session the flash under the open sector is still as it was at the start. */
  lemma {:induction false} OldUnderOpen(c: Chip, f: seq<byte>, xs: seq<Cell>, a: u32)
    requires Window(c, f) && Inside(c, xs) && Orderly(c, xs) && InFlash(c, a)
    requires OpenAt(c, PutAll(c, Store(f, Idle), xs), a)
    ensures PutAll(c, Store(f, Idle), xs).flash[a - Base(c)] == f[a - Base(c)]
    decreases |xs|
  {
    hide PutAll, OpenAt, Put, Leave, Shown;
    SessionShows(c, f, xs, a);
    var n := |xs| - 1;
    var before, x := xs[..n], xs[n];
    assert xs == before + [x];
    PutAllLast(c, Store(f, Idle), before, x);
    var m := PutAll(c, Store(f, Idle), before);
    PutElsewhere(c, m, x, a);
    LeaveElsewhere(c, m, x.addr, a);
    SessionShows(c, f, before, a);
    SessionShows(c, f, before, x.addr);
    if Fresh(c, before, x.addr) {
      OrderlyUntouched(c, xs, a);
      assert forall i :: 0 <= i < n ==> Together(c, before[i].addr, a) ==> before[i].addr != a;
      UnwrittenShows(c, f, before, a);
    } else {
      OrderlyPrefix(c, xs, n);
      OldUnderOpen(c, f, before, a);
    }
  }

  lemma OrderlyPrefix(c: Chip, xs: seq<Cell>, n: nat)
    requires ValidChip(c) && Inside(c, xs) && Orderly(c, xs) && n <= |xs|
    ensures Inside(c, xs[..n]) && Orderly(c, xs[..n])
  {
    forall i, j | 0 <= i < j < n ensures !Reopens(c, xs[..n], i, j) {
      assert xs[..n][..j] == xs[..j];
      assert !Reopens(c, xs, i, j);
    }
  }

  /** A byte of an orderly session that opens its sector is the first one there. */
  lemma OrderlyUntouched(c: Chip, xs: seq<Cell>, a: u32)
    requires ValidChip(c) && Inside(c, xs) && Orderly(c, xs) && xs != [] && InFlash(c, a)
    requires Together(c, xs[|xs| - 1].addr, a) && Fresh(c, xs[..|xs| - 1], xs[|xs| - 1].addr)
    ensures forall i :: 0 <= i < |xs| - 1 ==> !Together(c, xs[i].addr, a)
  {
    forall i | 0 <= i < |xs| - 1 ensures !Together(c, xs[i].addr, a) {
      assert !Reopens(c, xs, i, |xs| - 1);
    }
  }

  /** Before the close of an orderly session the flash is final if and only if the last byte ends its sector, or
      this sector was so from the start. */
  lemma FinalEarly(c: Chip, f: seq<byte>, xs: seq<Cell>)
    requires Window(c, f) && Inside(c, xs) && Orderly(c, xs)
    ensures PutAll(c, Store(f, Idle), xs).flash == Written(c, f, xs) <==> EndsSector(c, xs) || LastThere(c, f, xs)
  {
    hide PutAll, OpenAt, Orderly, Shown, Written;
    var m := PutAll(c, Store(f, Idle), xs);
    FinalBeforeClose(c, f, xs);
    forall a: u32 | InFlash(c, a)
      ensures OpenAt(c, m, a) ==> m.flash[a - Base(c)] == f[a - Base(c)]
      ensures OpenAt(c, m, a) <==> !Fresh(c, xs, a)
      ensures Shown(c, m, a) == Written(c, f, xs)[a - Base(c)]
    {
      SessionShows(c, f, xs, a);
      WrittenView(c, f, xs, a);
      if OpenAt(c, m, a) { OldUnderOpen(c, f, xs, a); }
    }
  }
}
