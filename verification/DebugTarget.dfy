/** The far end of the wire: the debug port, its one MEM-AP, the memory behind it, and the flash
    routines that run there. Callers know only the contracts; the bodies are one allowed behaviour. */
module DebugTarget {
  import opened Words
  import opened FlashIface
  import opened DebugPort
  import SwdPacket

  // ---- one transfer ----

  const POWER_UP_POLLS: nat := 100 // how often a reliable target may be asked before it is powered

  datatype Ack = Ok | Wait | Fault | ParityError | NoReply

  /** The debug port itself. `switches`: how often it was switched from JTAG to SWD, between two line resets;
      `awake`: IDCODE has been read since. `ctrl`: what was last written to
      CTRL/STAT, with the number of times it was read since then, and whether the last of these reads said that
      the target is powered. `sticky`: an error flag may be set. */
  datatype Port = Port(switches: nat, awake: bool, ctrl: u32, polls: nat, powered: bool, sticky: bool)

  /** The registers a memory access depends on: SELECT, and CSW, TAR and the read buffer of AP 0. `posted`: an AP
      write has been acknowledged that need not have completed yet. */
  datatype Dap = Dap(select: u32, csw: u32, tar: u32, rdbuf: u32, posted: bool, port: Port)

  datatype Mode = Bytes | Words | Other

  /** The access mode CSW selects: bits 0 to 2 give the size, bits 4 and 5 the increment. */
  function AccessMode(csw: u32): Mode {
    if csw / 16 % 4 != 1 then Other
    else if csw % 8 == 0 then Bytes
    else if csw % 8 == 2 then Words
    else Other
  }

  function AccessSize(mode: Mode): nat {
    if mode.Words? then 4 else 1
  }

  /** TAR moves on by the access size, but only inside its 1 KiB page: what happens at the page end is
      up to the implementation (IHI 0031, section C2.2.2). */
  predicate Advanced(tar: u32, size: nat, next: u32) {
    tar % 1024 + size < 1024 ==> next == tar + size
  }

  /** The word a read of DRW fetches. On a byte access only the lane of the byte is known. */
  predicate Fetched(mem: seq<byte>, mode: Mode, tar: u32, w: u32)
    requires |mem| == ADDRESS_SPACE
  {
    && (mode.Words? && tar % 4 == 0 && tar + 4 <= |mem| ==> w == Word(mem[tar..tar + 4]))
    && (mode.Bytes? ==> Lane(w, tar % 4) == mem[tar])
  }

  /** The memory after a write of DRW. */
  predicate Stored(mem: seq<byte>, mode: Mode, tar: u32, w: u32, after: seq<byte>)
    requires |mem| == ADDRESS_SPACE
  {
    && (mode.Words? && tar % 4 == 0 && tar + 4 <= |mem| ==> after == Overlay(mem, tar, WordBytes(w)))
    && (mode.Bytes? ==> after == Overlay(mem, tar, [Lane(w, tar % 4)]))
  }

  /** The acknowledge code of a packet. */
  function AckOf(code: nat): Ack {
    if code == SwdPacket.TRANSFER_OK then Ok
    else if code == SwdPacket.TRANSFER_WAIT then Wait
    else if code == SwdPacket.TRANSFER_FAULT then Fault
    else if code == SwdPacket.TRANSFER_ERROR then ParityError
    else NoReply
  }

  /** Reads that cannot simply be repeated: those of an AP, which move on, and those of the read buffer. */
  predicate Consumes(q: Request) {
    q.ap || q.reg == DP_RDBUFF
  }

  /** Both power-up acknowledges of CTRL/STAT, bits 29 and 31, are set. */
  predicate PoweredUp(w: u32) {
    w / 0x2000_0000 % 2 == 1 && w / 0x8000_0000 == 1
  }

  /** Both power-up requests of CTRL/STAT, bits 28 and 30, are set. */
  predicate Requested(ctrl: u32) {
    ctrl / 0x1000_0000 % 2 == 1 && ctrl / 0x4000_0000 % 2 == 1
  }

  /** All four clear bits of ABORT, bits 1 to 4, are set. */
  predicate ClearsAll(w: u32) {
    w / 2 % 16 == 15
  }

  /** The debug port after an acknowledged access to one of its own registers; CTRL/STAT is in bank 0. */
  function PortAfter(p: Port, bank: nat, q: Request, w: u32, r: u32): Port {
    if q.read then
      if q.reg == DP_IDCODE then p.(awake := true)
      else if q.reg == DP_CTRL_STAT && bank == 0 then p.(polls := p.polls + 1, powered := PoweredUp(r))
      else p
    else
      if q.reg == DP_ABORT then p.(sticky := p.sticky && !ClearsAll(w))
      else if q.reg == DP_CTRL_STAT && bank == 0 then p.(ctrl := w, polls := 0)
      else p
  }

  /** What an acknowledged transfer does. An AP write may still be under way when it is acknowledged; the next AP
      access and a read of the read buffer wait for it. AP reads are posted: they return the result of the AP read
      before them, and leave their own in the read buffer. A request to another AP or bank, or an
      access in another mode, may do anything but change SELECT or the CSW of AP 0. */
  predicate Responds(d: Dap, mem: seq<byte>, q: Request, w: u32, d': Dap, mem': seq<byte>, r: u32)
    requires |mem| == ADDRESS_SPACE
  {
    && |mem'| == ADDRESS_SPACE
    && d'.select == (if !q.ap && !q.read && q.reg == DP_SELECT then w else d.select)
    && d'.csw == (if q.ap && !q.read && q.reg == AP_CSW && d.select == 0 then w else d.csw)
    && (q.read || !q.ap ==> mem' == mem)
    && (!q.ap && !q.read ==> d'.tar == d.tar)
    && (q.read && !Consumes(q) ==> d' == d.(port := d'.port))
    && d'.posted == (if q.ap then !q.read else d.posted && !(q.read && q.reg == DP_RDBUFF))
    && d'.port == (if q.ap then d.port.(sticky := d'.port.sticky) else PortAfter(d.port, d.select % 16, q, w, r))
    && (!q.ap && q.read && q.reg == DP_RDBUFF ==> r == d.rdbuf && d'.tar == d.tar)
    && (q.ap && d.select == 0 && !q.read && q.reg != AP_DRW ==>
          mem' == mem && d'.tar == if q.reg == AP_TAR then w else d.tar)
    && (q.ap && d.select == 0 && q.reg == AP_DRW ==>
          !AccessMode(d.csw).Other? ==> Advanced(d.tar, AccessSize(AccessMode(d.csw)), d'.tar))
    && (q.ap && d.select == 0 && !q.read && q.reg == AP_DRW ==> Stored(mem, AccessMode(d.csw), d.tar, w, mem'))
    && (q.ap && d.select == 0 && q.read && q.reg == AP_DRW ==>
          r == d.rdbuf && Fetched(mem, AccessMode(d.csw), d.tar, d'.rdbuf))
  }

  // ---- a read that is repeated ----

  /** `n` times in a row the read was carried out and its answer garbled: it brought the registers from `d`
      to `d'`. */
  ghost predicate Garbled(n: nat, d: Dap, mem: seq<byte>, q: Request, w: u32, d': Dap)
    requires |mem| == ADDRESS_SPACE
  {
    if n == 0 then d' == d
    else exists e: Dap, v: u32 :: Garbled(n - 1, d, mem, q, w, e) && Responds(e, mem, q, w, d', mem, v)
  }

  /** After `n` garbled answers the read was answered with `r`. */
  ghost predicate Answered(n: nat, d: Dap, mem: seq<byte>, q: Request, w: u32, d': Dap, r: u32)
    requires |mem| == ADDRESS_SPACE
  {
    exists e: Dap :: Garbled(n, d, mem, q, w, e) && Responds(e, mem, q, w, d', mem, r)
  }

  /** In word mode on AP 0, with `k` words to go in the page. */
  predicate Streaming(d: Dap, k: nat) {
    && d.select == 0 && AccessMode(d.csw).Words? && d.tar % 4 == 0
    && d.tar % 1024 + 4 * k < 1024
  }

  lemma {:induction false} GarbledMovesOn(n: nat, d: Dap, mem: seq<byte>, w: u32, d': Dap)
    requires |mem| == ADDRESS_SPACE && Streaming(d, n)
    requires Garbled(n, d, mem, Request(true, true, AP_DRW), w, d')
    ensures d'.select == 0 && d'.csw == d.csw && d'.tar == d.tar + 4 * n && d'.tar + 4 <= ADDRESS_SPACE
    ensures d'.rdbuf == if n == 0 then d.rdbuf else Word(mem[d.tar + 4 * (n - 1)..d.tar + 4 * n])
  {
    PageRoom(d.tar, n);
    if n > 0 {
      var e: Dap, v: u32 :| Garbled(n - 1, d, mem, Request(true, true, AP_DRW), w, e)
                            && Responds(e, mem, Request(true, true, AP_DRW), w, d', mem, v);
      GarbledMovesOn(n - 1, d, mem, w, e);
      PageRoom(d.tar, n - 1);
    }
  }

  lemma InPage(q: nat, r: nat)
    requires r < 1024
    ensures (1024 * q + r) % 1024 == r && (1024 * q + r) % 4 == r % 4
  {
    assert 1024 * q + r == 4 * (256 * q) + r;
  }

  lemma PageRoom(tar: u32, n: nat)
    requires tar % 4 == 0 && tar % 1024 + 4 * n < 1024
    ensures tar + 4 * n + 4 <= ADDRESS_SPACE && (tar + 4 * n) % 1024 == tar % 1024 + 4 * n && (tar + 4 * n) % 4 == 0
  {
    var q, r := tar / 1024, tar % 1024;
    InPage(q, r);
    InPage(q, r + 4 * n);
    assert tar + 4 * n == 1024 * q + (r + 4 * n);
    assert q <= 0x3F_FFFF;
  }

  /** Why a repeated read is dangerous: a read of DRW that is answered after `n` garbled answers brings the word
      `n` places behind the one asked for. It is right only if the two happen to be equal. */
  lemma RetriedReadSkips(n: nat, d: Dap, mem: seq<byte>, w: u32, d': Dap, r: u32)
    requires |mem| == ADDRESS_SPACE && Streaming(d, n)
    requires Answered(n, d, mem, Request(true, true, AP_DRW), w, d', r)
    ensures d.tar + 4 * n + 4 <= ADDRESS_SPACE
    ensures r == if n == 0 then d.rdbuf else Word(mem[d.tar + 4 * (n - 1)..d.tar + 4 * n])
    ensures d'.rdbuf == Word(mem[d.tar + 4 * n..d.tar + 4 * n + 4])
  {
    PageRoom(d.tar, n);
    var e: Dap :| Garbled(n, d, mem, Request(true, true, AP_DRW), w, e)
                  && Responds(e, mem, Request(true, true, AP_DRW), w, d', mem, r);
    GarbledMovesOn(n, d, mem, w, e);
  }

  // ---- what the target is asked to do ----

  datatype Routine = Init | UnInit | EraseSector | ProgramPage | Verify

  /** The log of a session. `addr`, `size` and `buffer` are the arguments of a call; `resident`: the algorithm's blob
      was intact in RAM when the routine was entered; `settled`: no write was under way; `blank`: the bytes it was
      given to program were all 0xFF. */
  datatype Event =
    | Reset                        // reset for programming
    | Run                          // released to run the application
    | Download(algo: Algo, ok: bool)
    | Call(algo: Algo, routine: Routine, addr: u32, size: u32, buffer: u32, ok: bool,
           resident: bool, settled: bool, blank: bool)
    | WriteError                   // the accessor reported an error to its caller

  /** Where a session stands: the algorithm in RAM, whether its Init is open, whether an UnInit of it has failed,
      whether a write error was reported since the last reset; and whether the log so far is lawful, how
      many routines ran, how often the target was released, and whether only blank bytes were programmed. */
  datatype Phase = Phase(
    algo: Option<Algo>, open: bool, stuck: bool, failed: bool, lawful: bool, calls: nat, releases: nat, blank: bool)

  const START := Phase(None, false, false, false, true, 0, 0, true)

  /** An UnInit that failed has not closed anything: nothing may be downloaded or released behind it, and
      nothing erased, programmed or verified. */
  predicate Lawful(c: Chip, p: Phase, e: Event) {
    match e
    case Reset => true
    case Run => !p.open
    case Download(_, _) => !p.open
    case Call(a, Init, _, _, _, _, resident, settled, _) => p.algo == Some(a) && !p.open && resident && settled
    case Call(a, UnInit, _, _, _, _, resident, _, _) => p.algo == Some(a) && resident
    case Call(a, r, addr, _, _, _, resident, settled, _) =>
      && p.algo == Some(a) && p.open && !p.stuck && resident && settled && !p.failed
      && (r.EraseSector? ==> SizeAt(c, addr) > 0 && SectorOf(c, addr) == addr)
    case WriteError => true
  }

  function Next(c: Chip, p: Phase, e: Event): Phase {
    var q := p.(lawful := p.lawful && Lawful(c, p, e));
    match e
    case Reset => q.(algo := None, open := false, stuck := false, failed := false)
    case Run => q.(algo := None, open := false, stuck := false, releases := p.releases + 1)
    case Download(a, ok) => q.(algo := if ok then Some(a) else None)
    case Call(_, r, _, _, _, ok, _, _, blank) =>
      q.(open := if r.Init? then ok else if r.UnInit? && ok then false else p.open,
         stuck := if r.Init? then false else if r.UnInit? then !ok else p.stuck,
         calls := p.calls + 1,
         blank := p.blank && (r.ProgramPage? ==> blank))
    case WriteError => q.(failed := true)
  }

  function Scan(c: Chip, log: seq<Event>): Phase {
    if log == [] then START
    else Next(c, Scan(c, log[..|log| - 1]), log[|log| - 1])
  }

  // ---- the memory around an algorithm ----

  /** The algorithm's blob is in RAM, intact. */
  predicate Resident(mem: seq<byte>, a: Algo) {
    a.algoStart + |a.blob| <= |mem| && mem[a.algoStart..a.algoStart + |a.blob|] == a.blob
  }

  predicate Blank(mem: seq<byte>, addr: nat, size: nat) {
    addr + size <= |mem| && forall i :: addr <= i < addr + size ==> mem[i] == ERASED
  }

  /** A routine may change the algorithm's data and stack; EraseSector its sector, ProgramPage the bytes
      it is given. Nothing is said about what it writes there. */
  predicate MayTouch(c: Chip, a: Algo, r: Routine, addr: u32, size: u32, i: nat) {
    || a.algoStart + |a.blob| <= i < a.stackPointer
    || (r.EraseSector? && addr <= i < addr + SizeAt(c, addr))
    || (r.ProgramPage? && addr <= i < addr + size)
  }

  class Target {
    const chip: Chip
    const erases: bool    // EraseSector really leaves 0xFF
    const reliable: bool  // nothing goes wrong on the wire or in the routines, except that transfers may have to wait
    var dap: Dap
    var mem: seq<byte>
    var waits: nat        // how many WAIT answers are still to come at most
    ghost var answers: seq<Ack> // what it has answered to the packets sent to it
    ghost var noisy: bool // a read that cannot simply be repeated has failed its parity check
    ghost var log: seq<Event>
    ghost var phase: Phase

    ghost predicate Sized()
      reads `mem
    {
      |mem| == ADDRESS_SPACE
    }

    ghost predicate Logged()
      reads `log, `phase
    {
      ValidChip(chip) && phase == Scan(chip, log) && (reliable ==> erases)
    }

    ghost predicate Valid()
      reads `mem, `log, `phase
    {
      Sized() && Logged()
    }

    constructor (chip: Chip, erases: bool, reliable: bool, waits: nat)
      requires ValidChip(chip) && (reliable ==> erases)
      ensures Valid() && this.chip == chip && this.reliable == reliable && !noisy && log == []
    {
      this.chip, this.erases, this.reliable, this.waits := chip, erases, reliable, waits;
      dap := Dap(0, 0, 0, 0, false, Port(0, false, 0, 0, false, false));
      mem := Filled(ADDRESS_SPACE, 0);
      answers, noisy, log, phase := [], false, [], START;
    }

    function Flash(): seq<byte>
      requires Sized() && ValidChip(chip)
      reads `mem
    {
      EntryBounds(chip, 0);
      mem[Base(chip)..chip.limit]
    }

    /** One packet, bit by bit, to a target that acts on what it receives. It may refuse the request, which then
        has no effect; and one data bit of its answer may arrive inverted, in which case it has acted all
        the same. Between packets the line is as each packet leaves it, so every packet starts alike. */
    method Transfer(q: Request, w: u32) returns (ack: Ack, r: u32)
      requires Sized()
      modifies `dap, `mem, `waits, `answers, `noisy
      ensures Sized()
      ensures ack.Ok? || ack.ParityError? ==>
                exists v: u32 :: Responds(old(dap), old(mem), q, w, dap, mem, v) && (ack.Ok? ==> v == r)
      ensures !ack.Ok? && !ack.ParityError? ==> dap == old(dap) && mem == old(mem)
      ensures ack.ParityError? ==> q.read
      ensures noisy == (old(noisy) || (ack.ParityError? && Consumes(q)))
      ensures answers == old(answers) + [ack]
      ensures if ack.Wait? then waits < old(waits) else waits == old(waits)
      ensures reliable ==> ack.Ok? || ack.Wait?
      ensures reliable && ack.Ok? && q == Request(false, true, DP_CTRL_STAT) && UpBy(old(dap)) ==> PoweredUp(r)
    {
      hide Stored;
      ghost var d, m := dap, mem;
      var noise: bool := *;
      var reply := Decide(q, w);
      var wire := new SwdPacket.Wire(reply, false, true, if noise && !reliable then 1 else 0);
      var code;
      code, r := wire.Transfer(SwdPacket.RequestByte(q), w);
      ack := AckOf(code);
      answers := answers + [ack];
      noisy := noisy || (ack.ParityError? && Consumes(q));
      if wire.target.Listening? && wire.target.last.Packet? && wire.target.last.data != [] {
        r := Receive(wire.target.last, w);
      }
      if q.read && (ack.Ok? || ack.ParityError?) {
        assert Responds(d, m, q, w, dap, mem, reply.word);
        assert ack.Ok? ==> wire.flips == 0;
      }
    }

    /** What the target is going to answer: a read is carried out at once, a write when its data have come. */
    method Decide(q: Request, ghost w: u32) returns (reply: SwdPacket.Reply)
      requires Sized()
      modifies `dap, `mem, `waits
      ensures Sized() && SwdPacket.ValidReply(reply)
      ensures if q.read && reply.Reply? && reply.ack == SwdPacket.TRANSFER_OK
              then Responds(old(dap), old(mem), q, w, dap, mem, reply.word)
              else dap == old(dap) && mem == old(mem)
      ensures if reply.Reply? && reply.ack == SwdPacket.TRANSFER_WAIT then waits < old(waits) else waits == old(waits)
      ensures reliable ==> reply.Reply? && reply.ack != SwdPacket.TRANSFER_FAULT
      ensures reliable && q == Request(false, true, DP_CTRL_STAT) && UpBy(old(dap))
              && reply.ack == SwdPacket.TRANSFER_OK ==>
                PoweredUp(reply.word)
    {
      var busy, faulty, deaf: bool := *, *, *;
      reply := SwdPacket.Reply(SwdPacket.TRANSFER_OK, 0);
      if waits > 0 && busy {
        waits := waits - 1;
        reply := SwdPacket.Reply(SwdPacket.TRANSFER_WAIT, 0);
      } else if faulty && !reliable {
        reply := SwdPacket.Reply(SwdPacket.TRANSFER_FAULT, 0);
      } else if deaf && !reliable {
        reply := SwdPacket.Silent;
      } else if q.read {
        var word := Perform(q, 0);
        reply := SwdPacket.Reply(SwdPacket.TRANSFER_OK, word);
      }
    }

    /** The next read of CTRL/STAT finds a target powered that takes no longer than it may. */
    predicate UpBy(d: Dap) {
      d.select % 16 == 0 && Requested(d.port.ctrl) && d.port.polls + 1 >= POWER_UP_POLLS
    }

    /** A line reset, the switch from JTAG to SWD, and another line reset. */
    method SwitchToSwd()
      modifies `dap
      ensures dap == old(dap).(port := old(dap).port.(switches := old(dap).port.switches + 1, awake := false))
    {
      dap := dap.(port := dap.port.(switches := dap.port.switches + 1, awake := false));
    }

    /** The target acts on a write it has received. */
    method Receive(p: SwdPacket.Packet, ghost w: u32) returns (r: u32)
      requires Sized() && p.Packet? && p.data == SwdPacket.DataBits(w)
      modifies `dap, `mem
      ensures Sized()
      ensures Responds(old(dap), old(mem), p.request, w, dap, mem, r)
    {
      SwdPacket.WordReceived(w);
      r := Perform(p.request, SwdPacket.Value(p.data[..32]));
    }

    method Perform(q: Request, w: u32) returns (r: u32)
      requires Sized()
      modifies `dap, `mem
      ensures Sized()
      ensures Responds(old(dap), old(mem), q, w, dap, mem, r)
      ensures q == Request(false, true, DP_CTRL_STAT) && UpBy(old(dap)) ==> PoweredUp(r)
    {
      var slow: bool := *;
      r := dap.rdbuf;
      if q == Request(false, true, DP_CTRL_STAT) {
        r := if Requested(dap.port.ctrl) && (UpBy(dap) || !slow) then 0xA000_0000 else 0;
      }
      dap := dap.(posted := if q.ap then !q.read else dap.posted && !(q.read && q.reg == DP_RDBUFF));
      if !q.ap {
        dap := dap.(port := PortAfter(dap.port, dap.select % 16, q, w, r));
        if !q.read && q.reg == DP_SELECT { dap := dap.(select := w); }
      } else if dap.select == 0 {
        var mode := AccessMode(dap.csw);
        if q.reg == AP_DRW {
          var aligned := dap.tar % 4 == 0 && dap.tar + 4 <= |mem|;
          if q.read {
            var v := WordAt(mem, dap.tar);
            dap := dap.(rdbuf := v);
          } else {
            if mode.Words? && aligned {
              mem := Overlay(mem, dap.tar, WordBytes(w));
            } else if mode.Bytes? {
              mem := Overlay(mem, dap.tar, [Lane(w, dap.tar % 4)]);
            }
          }
          dap := dap.(tar := Wrap(dap.tar + AccessSize(mode)));
        } else if !q.read && q.reg == AP_TAR {
          dap := dap.(tar := w);
        } else if !q.read && q.reg == AP_CSW {
          dap := dap.(csw := w);
        }
      }
    }

    /** The target runs a routine of the flash algorithm to its breakpoint. */
    method RunRoutine(a: Algo, routine: Routine, addr: u32, size: u32, buffer: u32) returns (ok: bool)
      requires Valid()
      modifies `mem, `log, `phase, `noisy
      ensures Valid()
      ensures old(noisy) ==> noisy
      ensures log == old(log) +
                     [Call(a, routine, addr, size, buffer, ok, Resident(old(mem), a), !old(dap.posted),
                           Blank(old(mem), addr, size))]
      ensures phase == Next(chip, old(phase), log[|log| - 1])
      ensures forall i :: 0 <= i < ADDRESS_SPACE && !MayTouch(chip, a, routine, addr, size, i) ==> mem[i] == old(mem[i])
      ensures ok && !noisy && routine.EraseSector? && erases && addr + SizeAt(chip, addr) <= ADDRESS_SPACE ==>
                Blank(mem, addr, SizeAt(chip, addr))
      ensures ok && !noisy && routine.Verify? && addr + size <= ADDRESS_SPACE && buffer + size <= ADDRESS_SPACE ==>
                mem[addr..addr + size] == mem[buffer..buffer + size]
      ensures reliable ==> noisy == old(noisy) && (!routine.Verify? ==> ok)
      ensures reliable && addr + size <= ADDRESS_SPACE && buffer + size <= ADDRESS_SPACE ==>
                && (routine.ProgramPage? && Blank(old(mem), addr, size) ==>
                      mem[addr..addr + size] == old(mem)[buffer..buffer + size])
                && (routine.Verify? && old(mem)[addr..addr + size] == old(mem)[buffer..buffer + size] ==> ok)
    {
      ghost var e := Resident(mem, a);
      ghost var b := Blank(mem, addr, size);
      ok := Carry(routine, addr, size, buffer);
      Record(Call(a, routine, addr, size, buffer, ok, e, !dap.posted, b));
    }

    /** One way a routine may behave: it fails and does nothing, or does what it is there for. */
    method Carry(routine: Routine, addr: u32, size: u32, buffer: u32) returns (ok: bool)
      requires Valid()
      modifies `mem
      ensures Valid()
      ensures forall i :: 0 <= i < ADDRESS_SPACE ==>
                || mem[i] == old(mem[i])
                || (routine.EraseSector? && addr <= i < addr + SizeAt(chip, addr))
                || (routine.ProgramPage? && addr <= i < addr + size)
      ensures ok && routine.EraseSector? && addr + SizeAt(chip, addr) <= ADDRESS_SPACE ==>
                Blank(mem, addr, SizeAt(chip, addr))
      ensures ok && routine.Verify? && addr + size <= ADDRESS_SPACE && buffer + size <= ADDRESS_SPACE ==>
                mem[addr..addr + size] == mem[buffer..buffer + size]
      ensures reliable ==> (!routine.Verify? ==> ok)
      ensures reliable && addr + size <= ADDRESS_SPACE && buffer + size <= ADDRESS_SPACE ==>
                && (routine.ProgramPage? && Blank(old(mem), addr, size) ==>
                      mem[addr..addr + size] == old(mem)[buffer..buffer + size])
                && (routine.Verify? && old(mem)[addr..addr + size] == old(mem)[buffer..buffer + size] ==> ok)
    {
      hide Scan;
      ok := *;
      if reliable { ok := true; }
      if ok {
        if routine.EraseSector? && addr + SizeAt(chip, addr) <= ADDRESS_SPACE {
          mem := Overlay(mem, addr, Filled(SizeAt(chip, addr), ERASED));
        } else if routine.ProgramPage? && addr + size <= ADDRESS_SPACE && buffer + size <= ADDRESS_SPACE {
          mem := Overlay(mem, addr, mem[buffer..buffer + size]);
        } else if routine.Verify? && addr + size <= ADDRESS_SPACE && buffer + size <= ADDRESS_SPACE {
          ok := mem[addr..addr + size] == mem[buffer..buffer + size];
        }
      }
    }

    /** Resets and releases: the flash keeps its content, RAM need not. */
    method Restart(run: bool) returns (ok: bool)
      requires Valid()
      modifies `dap, `mem, `noisy, `log, `phase
      ensures Valid() && Flash() == old(Flash())
      ensures dap == old(dap).(posted := dap.posted) && (ok ==> !dap.posted)
      ensures old(noisy) ==> noisy
      ensures log == old(log) + [if run then Run else Reset]
      ensures phase == Next(chip, old(phase), if run then Run else Reset)
      ensures reliable ==> ok && noisy == old(noisy)
    {
      ok := *;
      if reliable { ok := true; }
      if ok { dap := dap.(posted := false); }
      Record(if run then Run else Reset);
    }

    ghost method Record(e: Event)
      requires Valid()
      modifies `log, `phase
      ensures Valid()
      ensures log == old(log) + [e] && phase == Next(chip, old(phase), e)
    {
      log, phase := log + [e], Next(chip, phase, e);
      assert log[..|log| - 1] == old(log);
    }
  }

  function WordAt(mem: seq<byte>, at: u32): (w: u32)
    requires |mem| == ADDRESS_SPACE
    ensures at % 4 == 0 && at + 4 <= |mem| ==> w == Word(mem[at..at + 4])
    ensures Lane(w, at % 4) == mem[at]
  {
    var s := at - at % 4;
    WordRoundTrip(mem[s..s + 4]);
    Word(mem[s..s + 4])
  }
}
