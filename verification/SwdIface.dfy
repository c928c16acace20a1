/** Host side of the debug port: retried transfers, the SELECT/CSW cache, and memory access through the
    MEM-AP in bytes and 1 KiB-limited word blocks. */
module Swd {
  import opened Words
  import opened FlashIface
  import opened DebugPort
  import opened DebugTarget

  const MAX_SWD_RETRY: nat := 100
  const PAGE: nat := 1024
  const PLACEHOLDER: u32 := 0xffff_ffff
  const CSW_VALUE: u32 := 0x2300_0050 // single auto-increment
  const CSW_SIZE8: u32 := 0
  const CSW_SIZE32: u32 := 2

  // ---- how an access is cut up ----

  datatype Access = Single(addr: int) | Block(addr: int, size: nat)

  /** The next block from a word-aligned address: up to the end of the 1 KiB page, or the whole words left. */
  function BlockSize(addr: nat, size: nat): nat {
    var room := PAGE - addr % PAGE;
    if size < room then size - size % 4 else room
  }

  /** Bytes up to a word boundary, word blocks, and bytes again. */
  function Plan(addr: nat, size: nat): seq<Access>
    decreases size
  {
    if size == 0 then []
    else if addr % 4 != 0 || size < 4 then [Single(addr)] + Plan(addr + 1, size - 1)
    else
      BlockShape(addr, size);
      [Block(addr, BlockSize(addr, size))] + Plan(addr + BlockSize(addr, size), size - BlockSize(addr, size))
  }

  lemma PageWords(addr: nat)
    requires addr % 4 == 0
    ensures addr % PAGE % 4 == 0
  {
    var q := addr / 1024;
    assert addr % 1024 == addr - 4 * (256 * q);
  }

  lemma WordsFit(room: nat, size: nat, addr: nat)
    requires addr % 4 == 0 && room % 4 == 0 && room >= 4 && size >= 4
    ensures var n := if size < room then size - size % 4 else room;
            4 <= n <= size && n <= room && n % 4 == 0 && (addr + n) % 4 == 0
  {
  }

  lemma BlockShape(addr: nat, size: nat)
    requires addr % 4 == 0 && size >= 4
    ensures var n := BlockSize(addr, size);
            4 <= n <= size && n % 4 == 0 && addr % PAGE + n <= PAGE && (addr + n) % 4 == 0
  {
    PageWords(addr);
    WordsFit(PAGE - addr % PAGE, size, addr);
  }

  /** One step of a plan from a word boundary. */
  lemma PlanBlock(addr: nat, size: nat, n: nat)
    requires addr % 4 == 0 && size >= 4 && n == BlockSize(addr, size)
    ensures 4 <= n <= size && n % 4 == 0 && addr % PAGE + n <= PAGE && (addr + n) % 4 == 0
    ensures Plan(addr, size) == [Block(addr, n)] + Plan(addr + n, size - n)
  {
    hide BlockSize;
    BlockShape(addr, size);
  }

  lemma PlanByte(addr: nat, size: nat)
    requires size > 0 && (addr % 4 != 0 || size < 4)
    ensures Plan(addr, size) == [Single(addr)] + Plan(addr + 1, size - 1)
  {
  }

  /** The accesses of a plan follow each other without gap from `addr` to `end`. */
  predicate Tiles(p: seq<Access>, addr: int, end: int) {
    if p == [] then addr == end
    else p[0].addr == addr && Tiles(p[1..], addr + (if p[0].Single? then 1 else p[0].size), end)
  }

  predicate GoodAccess(a: Access) {
    a.Block? ==> a.addr % 4 == 0 && a.size > 0 && a.size % 4 == 0 && a.addr / PAGE == (a.addr + a.size - 1) / PAGE
  }

  /** A plan covers exactly its range, in order; every block is a positive number of words, on a word
      boundary, inside one 1 KiB page. */
  lemma {:induction false} PlanCovers(addr: nat, size: nat)
    ensures Tiles(Plan(addr, size), addr, addr + size)
    ensures forall i :: 0 <= i < |Plan(addr, size)| ==> GoodAccess(Plan(addr, size)[i])
    decreases size
  {
    if size > 0 {
      if addr % 4 != 0 || size < 4 {
        PlanCovers(addr + 1, size - 1);
        assert Plan(addr, size)[1..] == Plan(addr + 1, size - 1);
      } else {
        var n := BlockSize(addr, size);
        BlockShape(addr, size);
        PlanCovers(addr + n, size - n);
        assert Plan(addr, size)[1..] == Plan(addr + n, size - n);
      }
    }
  }

  lemma {:induction false} PlanStaysAbove(addr: nat, size: nat)
    ensures forall i :: 0 <= i < |Plan(addr, size)| ==> Plan(addr, size)[i].addr >= addr
    decreases size
  {
    if size > 0 {
      if addr % 4 != 0 || size < 4 {
        PlanStaysAbove(addr + 1, size - 1);
      } else {
        BlockShape(addr, size);
        PlanStaysAbove(addr + BlockSize(addr, size), size - BlockSize(addr, size));
      }
    }
  }

  predicate NullWrite(addr: nat, size: nat) {
    addr == 0 && 0 < size < 4
  }

  /** A byte write to address 0 repeats its DRW write with a null data pointer instead of reading the
      read buffer. A memory write comes to that exactly when it is one to three bytes at address 0. */
  lemma NullWriteIff(addr: nat, size: nat)
    ensures Single(0) in Plan(addr, size) <==> NullWrite(addr, size)
  {
    if 0 < size {
      if addr % 4 != 0 || size < 4 {
        PlanStaysAbove(addr + 1, size - 1);
        assert Plan(addr, size)[0] == Single(addr);
      } else {
        BlockShape(addr, size);
        PlanStaysAbove(addr + BlockSize(addr, size), size - BlockSize(addr, size));
      }
    }
  }

  /** Answers after each of which a transfer is retried: neither OK nor none at all, and from the hundredth on
      only WAIT. */
  predicate Unfinished(answers: seq<Ack>) {
    forall k :: 0 <= k < |answers| - 1 ==>
      !answers[k].Ok? && !answers[k].NoReply? && (k + 1 >= 100 ==> answers[k].Wait?)
  }

  /** The answers of one transfer: retried until it is acknowledged, or not answered, or until 100 answers have been
      refused and the last one is not WAIT. */
  predicate Retried(answers: seq<Ack>, ack: Ack) {
    && answers != [] && answers[|answers| - 1] == ack && Unfinished(answers)
    && (ack.Ok? || ack.NoReply? || (|answers| >= 100 && !ack.Wait?))
  }

  /** The plan is as short as it can be: a byte is accessed alone only before a word boundary or when less than a word
      is left, and a block ends at the end of its page or when less than a word is left. */
  lemma {:induction false} PlanMaximal(addr: nat, size: nat)
    ensures forall i :: 0 <= i < |Plan(addr, size)| ==>
              match Plan(addr, size)[i]
              case Single(a) => a % 4 != 0 || addr + size < a + 4
              case Block(a, n) => (a + n) % PAGE == 0 || addr + size < a + n + 4
    decreases size
  {
    if size > 0 {
      if addr % 4 != 0 || size < 4 {
        PlanMaximal(addr + 1, size - 1);
      } else {
        var n := BlockSize(addr, size);
        BlockShape(addr, size);
        BlockEnds(addr, size);
        PlanMaximal(addr + n, size - n);
      }
    }
  }

  lemma BlockEnds(addr: nat, size: nat)
    requires addr % 4 == 0 && size >= 4
    ensures var n := BlockSize(addr, size); (addr + n) % PAGE == 0 || size < n + 4
  {
    var room := PAGE - addr % PAGE;
    assert addr + room == PAGE * (addr / PAGE + 1);
  }

  /** The debug port after reads of its registers: only what counts and remembers these has changed. */
  function Repolled(p: Port, q: Port): Port {
    p.(awake := q.awake, polls := q.polls, powered := q.powered)
  }

  /** The registers after a read that has been repeated any number of times. */
  predicate Repeated(q: Request, d: Dap, e: Dap) {
    && e.select == d.select && e.csw == d.csw
    && (!q.ap ==> e.port == Repolled(d.port, e.port))
    && (d.port.awake ==> e.port.awake)
    && (q == Request(false, true, DP_CTRL_STAT) ==> d.port.polls <= e.port.polls)
    && (e.posted ==> d.posted) && (!Consumes(q) ==> e.posted == d.posted)
  }

  /** The registers after a read that was answered with `r` in the end. */
  predicate Brought(q: Request, d: Dap, e: Dap, r: u32) {
    && e.posted == (d.posted && !Consumes(q))
    && (q == Request(false, true, DP_IDCODE) ==> e.port.awake)
    && (q == Request(false, true, DP_CTRL_STAT) && d.select % 16 == 0 ==>
          e.port.powered == PoweredUp(r) && e.port.polls > d.port.polls)
  }

  lemma NotRepeated(q: Request, d: Dap)
    ensures Repeated(q, d, d)
  {
  }

  lemma ReadOnce(q: Request, w: u32, d: Dap, e: Dap, e': Dap, mem: seq<byte>, r: u32)
    requires |mem| == ADDRESS_SPACE && q.read && Repeated(q, d, e) && Responds(e, mem, q, w, e', mem, r)
    ensures Repeated(q, d, e') && Brought(q, d, e', r)
  {
    hide Fetched, Advanced;
  }

  lemma NoAnswers()
    ensures Unfinished([])
  {
  }

  lemma OneAnswer(answers: seq<Ack>, ack: Ack)
    requires Unfinished(answers)
    requires answers != [] ==>
               var a := answers[|answers| - 1]; !a.Ok? && !a.NoReply? && (|answers| >= 100 ==> a.Wait?)
    ensures Unfinished(answers + [ack])
    ensures ack.Ok? || ack.NoReply? || (|answers| >= 99 && !ack.Wait?) ==> Retried(answers + [ack], ack)
  {
  }

  class SwdIface {
    const target: Target
    var select: u32
    var csw: u32
    ghost var stale: bool            // a SELECT or CSW write has failed: the cache names a value that was not stored
    ghost var accesses: seq<Access>  // the memory accesses made
    ghost var nulled: bool           // a null data pointer has been passed to a write, which reads through it

    ghost predicate Valid()
      reads this, target
    {
      && target.Sized()
      && (!stale ==> Coherent())
    }

    /** The cache holds the target's registers, or still the placeholder. */
    ghost predicate Coherent()
      reads this, target
    {
      && (select == PLACEHOLDER || select == target.dap.select)
      && (csw == PLACEHOLDER || csw == target.dap.csw)
    }

    constructor (t: Target)
      requires t.Sized()
      ensures Valid() && target == t && stale
    {
      target, select, csw := t, 0, 0;
      stale, accesses, nulled := true, [], false;
    }

    /** Retries up to 100 times, and as long as the answer is WAIT; what is not answered is not retried. A read
        whose answer is garbled is repeated as well, although the target has carried it out. */
    method TransferRetry(q: Request, w: u32) returns (ack: Ack, r: u32)
      requires target.Sized()
      modifies target`dap, target`mem, target`waits, target`answers, target`noisy
      ensures target.Sized() && (old(target.noisy) ==> target.noisy)
      ensures !q.read && ack.Ok? ==> Responds(old(target.dap), old(target.mem), q, w, target.dap, target.mem, r)
      ensures !q.read && !ack.Ok? ==> target.dap == old(target.dap) && target.mem == old(target.mem)
      ensures q.read ==> target.mem == old(target.mem)
      ensures q.read ==> Repeated(q, old(target.dap), target.dap)
      ensures q.read && ack.Ok? ==> Brought(q, old(target.dap), target.dap, r)
      ensures q.read && ack.Ok? ==> exists n: nat :: Answered(n, old(target.dap), target.mem, q, w, target.dap, r)
      ensures q.read && Consumes(q) && ack.Ok? && !target.noisy ==>
                Responds(old(target.dap), old(target.mem), q, w, target.dap, target.mem, r)
      ensures exists given :: target.answers == old(target.answers) + given && Retried(given, ack)
      ensures !(q.read && Consumes(q)) ==> target.noisy == old(target.noisy)
      ensures target.reliable ==> ack.Ok? && target.noisy == old(target.noisy)
      ensures target.reliable && q == Request(false, true, DP_CTRL_STAT) && target.UpBy(old(target.dap)) ==>
                PoweredUp(r)
    {
      hide Stored, Requested;
      hide Unfinished, Retried, Repeated, Brought;
      var i := 0;
      ghost var given: seq<Ack> := [];
      ghost var n: nat := 0;
      ghost var d := target.dap;
      NoAnswers();
      NotRepeated(q, d);
      ack, r := Ok, 0;
      while ack.Wait? || i < MAX_SWD_RETRY
        invariant target.Sized() && (old(target.noisy) ==> target.noisy)
        invariant target.mem == old(target.mem)
        invariant !q.read || target.reliable || (Consumes(q) && !target.noisy) ==> target.dap == old(target.dap)
        invariant q.read ==> Repeated(q, d, target.dap)
        invariant target.answers == old(target.answers) + given && |given| == i && Unfinished(given)
        invariant i > 0 ==> given[i - 1] == ack && !ack.NoReply?
        invariant i >= 100 && !ack.Wait? ==> Retried(given, ack)
        invariant q.read ==> Garbled(n, d, target.mem, q, w, target.dap)
        invariant !(q.read && Consumes(q)) ==> target.noisy == old(target.noisy)
        invariant i > 0 ==> !ack.Ok?
        invariant target.reliable ==> target.noisy == old(target.noisy) && (ack.Ok? || ack.Wait?)
        decreases target.waits, if i < MAX_SWD_RETRY then 2 + MAX_SWD_RETRY - i else if ack.Wait? then 1 else 0
      {
        ghost var e := target.dap;
        ack, r := target.Transfer(q, w);
        if q.read && (ack.Ok? || ack.ParityError?) {
          ghost var v: u32 :| Responds(e, old(target.mem), q, w, target.dap, target.mem, v) && (ack.Ok? ==> v == r);
          ReadOnce(q, w, d, e, target.dap, target.mem, v);
        }
        OneAnswer(given, ack);
        given := given + [ack];
        if ack.Ok? || ack.NoReply? {
          assert Retried(given, ack);
          if ack.Ok? && q.read { assert Answered(n, d, target.mem, q, w, target.dap, r); }
          return;
        }
        if ack.ParityError? { n := n + 1; }
        i := i + 1;
      }
    }


    method ReadDp(reg: Register) returns (ok: bool, val: u32)
      requires Valid()
      modifies target`dap, target`mem, target`waits, target`answers, target`noisy
      ensures Valid() && target.mem == old(target.mem)
      ensures target.dap.select == old(target.dap.select) && target.dap.csw == old(target.dap.csw)
      ensures old(target.noisy) ==> target.noisy
      ensures ok && !target.noisy && reg == DP_RDBUFF ==> val == old(target.dap.rdbuf)
      ensures ok ==> target.dap.posted == (old(target.dap.posted) && reg != DP_RDBUFF)
      ensures target.dap.port == Repolled(old(target.dap.port), target.dap.port)
      ensures old(target.dap.port.awake) || (ok && reg == DP_IDCODE) ==> target.dap.port.awake
      ensures ok && reg == DP_CTRL_STAT && old(target.dap.select) % 16 == 0 ==>
                target.dap.port.powered == PoweredUp(val) && target.dap.port.polls > old(target.dap.port.polls)
      ensures target.reliable ==> ok && target.noisy == old(target.noisy)
      ensures target.reliable && reg == DP_CTRL_STAT && target.UpBy(old(target.dap)) ==> PoweredUp(val)
    {
      var ack;
      ack, val := TransferRetry(Request(false, true, reg), 0);
      ok := ack.Ok?;
    }

    /** The cache takes the value before the write is made. So a failed write leaves it wrong, and when the same
        write is asked for again, it is answered true without a transfer. */
    method WriteDp(reg: Register, val: u32) returns (ok: bool)
      requires Valid()
      modifies `select, `stale
      modifies target`dap, target`mem, target`waits, target`answers, target`noisy
      ensures Valid() && target.mem == old(target.mem)
      ensures target.dap.csw == old(target.dap.csw) && target.dap.tar == old(target.dap.tar)
      ensures old(target.noisy) ==> target.noisy
      ensures (old(stale) ==> stale) && (ok ==> stale == old(stale))
      ensures ok && !stale && reg == DP_SELECT && val != PLACEHOLDER ==> target.dap.select == val
      ensures reg != DP_SELECT ==> target.dap.select == old(target.dap.select) && stale == old(stale)
      ensures target.dap.posted == old(target.dap.posted)
      ensures target.dap.port ==
              if ok && (reg != DP_SELECT || old(select) != val)
              then PortAfter(old(target.dap.port), old(target.dap.select) % 16, Request(false, false, reg), val, 0)
              else old(target.dap.port)
      ensures !ok ==> target.dap == old(target.dap)
      ensures reg == DP_SELECT ==> select == val && stale == (old(stale) || !ok)
      ensures reg == DP_SELECT && old(Coherent() && select != PLACEHOLDER) && !ok ==> select != target.dap.select
      ensures reg == DP_SELECT && old(select) == val ==>
                && ok && target.dap == old(target.dap)
                && target.waits == old(target.waits) && target.noisy == old(target.noisy)
      ensures target.reliable ==> ok && target.noisy == old(target.noisy)
    {
      if reg == DP_SELECT {
        if select == val { return true; }
        select := val;
      }
      var ack, _ := TransferRetry(Request(false, false, reg), val);
      ok := ack.Ok?;
      if !ok && reg == DP_SELECT { stale := true; }
    }

    /** The register at `addr`: APSEL in the top byte, bank in bits 4 to 7, register in bits 2 and 3. */
    method WriteAp(addr: u32, val: u32) returns (ok: bool)
      requires Valid() && addr % 4 == 0 && addr / 0x100 % 0x1_0000 == 0
      modifies `select, `csw, `stale
      modifies target`dap, target`mem, target`waits, target`answers, target`noisy
      ensures Valid()
      ensures old(target.noisy) ==> target.noisy
      ensures (old(stale) ==> stale) && (ok ==> stale == old(stale))
      ensures addr == AP_CSW && !old(stale) ==> target.mem == old(target.mem)
      ensures ok && !stale && addr == AP_CSW && val != PLACEHOLDER ==> target.dap.select == 0 && target.dap.csw == val
      ensures addr == AP_CSW && stale && old(!stale && select != PLACEHOLDER && csw != PLACEHOLDER) ==>
                !ok && (select == 0 != target.dap.select || csw == val != target.dap.csw)
      ensures addr == AP_CSW && old(select) == 0 && old(csw) == val ==>
                && ok && target.dap == old(target.dap)
                && target.waits == old(target.waits) && target.noisy == old(target.noisy)
      ensures target.reliable ==> ok && target.noisy == old(target.noisy)
      ensures ok && !old(target.dap.posted) ==> !target.dap.posted
    {
      var bank := addr / 0x100_0000 * 0x100_0000 + addr / 0x10 % 0x10 * 0x10;
      ok := WriteDp(DP_SELECT, bank);
      if !ok { return false; }
      if addr == AP_CSW {
        if csw == val { return true; }
        csw := val;
      }
      BankZero(addr);
      var ack, _ := TransferRetry(Request(true, false, addr / 4 % 4 * 4), val);
      if !ack.Ok? {
        if addr == AP_CSW { stale := true; }
        return false;
      }
      var done, _ := ReadDp(DP_RDBUFF);
      ok := done;
    }

    /** One access at `addr` in the mode CSW is in. At address 0 the source repeats the DRW write with a null
        data pointer in place of the read: that is noted, and the write does not succeed. */
    method WriteData(addr: u32, val: u32) returns (ok: bool)
      requires Valid()
      modifies `nulled
      modifies target`dap, target`mem, target`waits, target`answers, target`noisy
      ensures Valid()
      ensures old(target.noisy) ==> target.noisy
      ensures old(target.dap.select) == 0 ==>
                || Stored(old(target.mem), AccessMode(old(target.dap.csw)), addr, val, target.mem)
                || (!ok && target.mem == old(target.mem))
      ensures target.reliable ==>
                target.noisy == old(target.noisy) && ok == (addr != 0) && nulled == (old(nulled) || addr == 0)
      ensures (addr == 0 ==> !ok) && (addr != 0 ==> nulled == old(nulled))
      ensures ok ==> !target.dap.posted
      ensures target.dap.select == old(target.dap.select) && target.dap.csw == old(target.dap.csw)
    {
      var ack, r := TransferRetry(Request(true, false, AP_TAR), addr);
      if !ack.Ok? { return false; }
      ack, r := TransferRetry(Request(true, false, AP_DRW), val);
      if !ack.Ok? { return false; }
      if addr == 0 {
        nulled := true;
        return false;
      }
      ok, r := ReadDp(DP_RDBUFF);
    }

    method ReadData(addr: u32) returns (ok: bool, val: u32)
      requires Valid()
      modifies target`dap, target`mem, target`waits, target`answers, target`noisy
      ensures Valid()
      ensures old(target.noisy) ==> target.noisy
      ensures old(target.dap.select) == 0 ==> target.mem == old(target.mem)
      ensures ok && !target.noisy && old(target.dap.select) == 0 ==>
                Fetched(target.mem, AccessMode(old(target.dap.csw)), addr, val)
      ensures target.reliable ==> ok && target.noisy == old(target.noisy)
      ensures ok ==> !target.dap.posted
      ensures target.dap.select == old(target.dap.select) && target.dap.csw == old(target.dap.csw)
    {
      val := 0;
      var ack, r := TransferRetry(Request(true, false, AP_TAR), addr);
      if !ack.Ok? { return false, 0; }
      ack, r := TransferRetry(Request(true, true, AP_DRW), 0);
      if !ack.Ok? { return false, 0; }
      ok, val := ReadDp(DP_RDBUFF);
    }

    method WriteByte(addr: u32, val: byte) returns (ok: bool)
      requires Valid()
      modifies `select, `csw, `stale, `accesses, `nulled
      modifies target`dap, target`mem, target`waits, target`answers, target`noisy
      ensures Valid()
      ensures old(target.noisy) ==> target.noisy
      ensures (old(stale) ==> stale) && (ok ==> stale == old(stale))
      ensures accesses == old(accesses) + [Single(addr)]
      ensures !old(stale) ==>
                || target.mem == Overlay(old(target.mem), addr, [val])
                || (!ok && target.mem == old(target.mem))
      ensures target.reliable ==>
                target.noisy == old(target.noisy) && ok == (addr != 0) && nulled == (old(nulled) || addr == 0)
      ensures (addr == 0 ==> !ok) && (addr != 0 ==> nulled == old(nulled))
      ensures ok ==> !target.dap.posted
      ensures ok && !stale ==> target.dap.select == 0 && target.dap.csw == 0x2300_0050
    {
      accesses := accesses + [Single(addr)];
      ok := WriteAp(AP_CSW, CSW_VALUE + CSW_SIZE8);
      if !ok { return; }
      var tmp := OnLane(val, addr % 4);
      ok := WriteData(addr, tmp);
    }

    method ReadByte(addr: u32) returns (ok: bool, val: byte)
      requires Valid()
      modifies `select, `csw, `stale, `accesses
      modifies target`dap, target`mem, target`waits, target`answers, target`noisy
      ensures Valid()
      ensures old(target.noisy) ==> target.noisy
      ensures (old(stale) ==> stale) && (ok ==> stale == old(stale))
      ensures accesses == old(accesses) + [Single(addr)]
      ensures !old(stale) ==> target.mem == old(target.mem)
      ensures ok && !stale && !target.noisy ==> val == target.mem[addr]
      ensures target.reliable ==> ok && target.noisy == old(target.noisy)
      ensures ok ==> !target.dap.posted
      ensures ok && !stale ==> target.dap.select == 0 && target.dap.csw == 0x2300_0050
    {
      accesses := accesses + [Single(addr)];
      val := 0;
      ok := WriteAp(AP_CSW, CSW_VALUE + CSW_SIZE8);
      if !ok { return; }
      var tmp;
      ok, tmp := ReadData(addr);
      val := Lane(tmp, addr % 4);
    }

    /** Writes whole words inside one 1 KiB page. */
    method WriteBlock(addr: u32, data: seq<byte>) returns (ok: bool)
      requires Valid() && addr % 4 == 0 && |data| % 4 == 0 && addr % PAGE + |data| <= PAGE
      requires addr + |data| <= ADDRESS_SPACE
      modifies `select, `csw, `stale, `accesses
      modifies target`dap, target`mem, target`waits, target`answers, target`noisy
      ensures Valid()
      ensures old(target.noisy) ==> target.noisy
      ensures (old(stale) ==> stale) && (ok ==> stale == old(stale))
      ensures accesses == old(accesses) + [Block(addr, |data|)]
      ensures data == [] ==> !ok
      ensures ok && !stale ==> target.mem == Overlay(old(target.mem), addr, data)
      ensures !old(stale) ==> SameAround(old(target.mem), target.mem, addr, |data|)
      ensures target.reliable && data != [] ==> ok && target.noisy == old(target.noisy)
      ensures ok ==> !target.dap.posted
      ensures ok && !stale ==> target.dap.select == 0 && target.dap.csw == 0x2300_0052
    {
      accesses := accesses + [Block(addr, |data|)];
      if |data| == 0 { return false; }
      ok := BeginBlock(addr);
      if !ok { return; }
      ghost var mem, clean := old(target.mem), !stale;
      var words, i := |data| / 4, 0;
      while i < words
        invariant i <= words && Valid() && stale == old(stale)
        invariant accesses == old(accesses) + [Block(addr, |data|)]
        invariant (old(target.noisy) ==> target.noisy) && (target.reliable ==> target.noisy == old(target.noisy))
        invariant clean ==> target.dap.select == 0 && target.dap.csw == CSW_VALUE + CSW_SIZE32
        invariant clean && i < words ==> target.dap.tar == addr + 4 * i
        invariant clean ==> target.mem == Overlay(mem, addr, data[..4 * i])
        invariant clean ==> SameAround(mem, target.mem, addr, |data|)
      {
        PageStep(addr, |data|, i);
        OverlayMore(mem, addr, data, 4 * i, 4);
        ok := PushWord(data[4 * i..4 * i + 4]);
        if !ok { return; }
        i := i + 1;
      }
      assert data[..4 * i] == data;
      var r;
      ok, r := ReadDp(DP_RDBUFF);
    }

    method BeginBlock(addr: u32) returns (ok: bool)
      requires Valid()
      modifies `select, `csw, `stale
      modifies target`dap, target`mem, target`waits, target`answers, target`noisy
      ensures Valid()
      ensures old(target.noisy) ==> target.noisy
      ensures (old(stale) ==> stale) && (ok ==> stale == old(stale))
      ensures !old(stale) ==> target.mem == old(target.mem)
      ensures ok && !stale ==>
                target.dap.select == 0 && target.dap.csw == CSW_VALUE + CSW_SIZE32 && target.dap.tar == addr
      ensures target.reliable ==> ok && target.noisy == old(target.noisy)
    {
      ok := WriteAp(AP_CSW, CSW_VALUE + CSW_SIZE32);
      if !ok { return; }
      var ack, r := TransferRetry(Request(true, false, AP_TAR), addr);
      ok := ack.Ok?;
    }

    /** A write of the word at TAR. */
    method PushWord(bytes: seq<byte>) returns (ok: bool)
      requires Valid() && |bytes| == 4
      modifies target`dap, target`mem, target`waits, target`answers, target`noisy
      ensures Valid()
      ensures old(target.noisy) ==> target.noisy
      ensures target.dap.select == old(target.dap.select) && target.dap.csw == old(target.dap.csw)
      ensures !ok ==> target.dap == old(target.dap) && target.mem == old(target.mem)
      ensures var d := old(target.dap);
              ok && d.select == 0 && d.csw == CSW_VALUE + CSW_SIZE32 && d.tar % 4 == 0 && d.tar + 4 <= ADDRESS_SPACE ==>
                && target.mem == Overlay(old(target.mem), d.tar, bytes)
                && Advanced(d.tar, 4, target.dap.tar)
      ensures target.reliable ==> ok && target.noisy == old(target.noisy)
    {
      WordRoundTrip(bytes);
      var ack, r := TransferRetry(Request(true, false, AP_DRW), Word(bytes));
      ok := ack.Ok?;
    }

    /** A posted read of the word at TAR: brings the word asked for before. */
    method FetchWord() returns (ok: bool, r: u32)
      requires Valid()
      modifies target`dap, target`mem, target`waits, target`answers, target`noisy
      ensures Valid() && target.mem == old(target.mem)
      ensures old(target.noisy) ==> target.noisy
      ensures target.dap.select == old(target.dap.select) && target.dap.csw == old(target.dap.csw)
      ensures var d := old(target.dap);
              ok && !target.noisy && d.select == 0 && d.csw == CSW_VALUE + CSW_SIZE32
              && d.tar % 4 == 0 && d.tar + 4 <= ADDRESS_SPACE ==>
                && r == d.rdbuf
                && target.dap.rdbuf == Word(target.mem[d.tar..d.tar + 4])
                && Advanced(d.tar, 4, target.dap.tar)
      ensures target.reliable ==> ok && target.noisy == old(target.noisy)
    {
      var ack;
      ack, r := TransferRetry(Request(true, true, AP_DRW), 0);
      ok := ack.Ok?;
    }

    /** Reads whole words inside one 1 KiB page. Reads are posted: each one brings the word asked for
        before, and the last word comes from the read buffer. */
    method ReadBlock(addr: u32, data: array<byte>, at: nat, size: nat) returns (ok: bool)
      requires Valid() && addr % 4 == 0 && size % 4 == 0 && addr % PAGE + size <= PAGE
      requires addr + size <= ADDRESS_SPACE && at + size <= data.Length
      modifies data, `select, `csw, `stale, `accesses
      modifies target`dap, target`mem, target`waits, target`answers, target`noisy
      ensures Valid()
      ensures old(target.noisy) ==> target.noisy
      ensures (old(stale) ==> stale) && (ok ==> stale == old(stale))
      ensures accesses == old(accesses) + [Block(addr, size)]
      ensures size == 0 ==> !ok
      ensures !old(stale) ==> target.mem == old(target.mem)
      ensures SameAround(old(data[..]), data[..], at, size)
      ensures ok && !stale && !target.noisy ==> data[at..at + size] == target.mem[addr..addr + size]
      ensures target.reliable && size > 0 ==> ok && target.noisy == old(target.noisy)
      ensures ok ==> !target.dap.posted
      ensures ok && !stale ==> target.dap.select == 0 && target.dap.csw == 0x2300_0052
    {
      accesses := accesses + [Block(addr, size)];
      if size == 0 { return false; }
      ok := BeginBlock(addr);
      if !ok { return; }
      ok := DrainBlock(addr, data, at, size);
    }

    /** Reads the words of a block once CSW and TAR are set. */
    method DrainBlock(addr: u32, data: array<byte>, at: nat, size: nat) returns (ok: bool)
      requires Valid() && addr % 4 == 0 && size % 4 == 0 && addr % PAGE + size <= PAGE
      requires addr + size <= ADDRESS_SPACE && at + size <= data.Length && size > 0
      requires !stale ==>
                 target.dap.select == 0 && target.dap.csw == CSW_VALUE + CSW_SIZE32 && target.dap.tar == addr
      modifies data
      modifies target`dap, target`mem, target`waits, target`answers, target`noisy
      ensures Valid() && target.mem == old(target.mem)
      ensures old(target.noisy) ==> target.noisy
      ensures SameAround(old(data[..]), data[..], at, size)
      ensures ok && !stale && !target.noisy ==> data[at..at + size] == target.mem[addr..addr + size]
      ensures target.reliable ==> ok && target.noisy == old(target.noisy)
      ensures ok ==> !target.dap.posted
      ensures target.dap.select == old(target.dap.select) && target.dap.csw == old(target.dap.csw)
    {
      hide SameAround, Coherent;
      ghost var before := data[..];
      SameAroundSelf(before, at, size);
      PageStep(addr, size, 0);
      var r;
      ok, r := FetchWord();
      if !ok { return; }
      var words, i := size / 4, 0;
      while i < words - 1
        invariant target.dap.select == old(target.dap.select) && target.dap.csw == old(target.dap.csw)
        invariant i <= words - 1 && Valid() && target.mem == old(target.mem)
        invariant (old(target.noisy) ==> target.noisy) && (target.reliable ==> target.noisy == old(target.noisy))
        invariant !stale && !target.noisy ==> Posted(addr, size, i)
        invariant SameAround(old(data[..]), data[..], at, size)
        invariant !stale && !target.noisy ==> data[at..at + 4 * i] == target.mem[addr..addr + 4 * i]
      {
        ghost var now := data[..];
        ok := ReadNext(addr, data, at, size, i);
        SameAroundTrans(before, now, data[..], at, size, at, size);
        if !ok { return; }
        i := i + 1;
      }
      ghost var now := data[..];
      ok := DrainLast(addr, data, at, size, i);
      SameAroundTrans(before, now, data[..], at, size, at, size);
    }

    /** Brings the last word of the block, from the read buffer. */
    method DrainLast(addr: u32, data: array<byte>, at: nat, size: nat, i: nat) returns (ok: bool)
      requires Valid() && addr + size <= ADDRESS_SPACE && at + size <= data.Length && 4 * i + 4 == size
      requires !stale && !target.noisy ==> Posted(addr, size, i)
      requires !stale && !target.noisy ==> data[at..at + 4 * i] == target.mem[addr..addr + 4 * i]
      modifies data
      modifies target`dap, target`mem, target`waits, target`answers, target`noisy
      ensures Valid() && target.mem == old(target.mem)
      ensures old(target.noisy) ==> target.noisy
      ensures SameAround(old(data[..]), data[..], at, size)
      ensures ok && !stale && !target.noisy ==> data[at..at + size] == target.mem[addr..addr + size]
      ensures target.reliable ==> ok && target.noisy == old(target.noisy)
      ensures ok ==> !target.dap.posted
      ensures target.dap.select == old(target.dap.select) && target.dap.csw == old(target.dap.csw)
    {
      hide SameAround, Coherent;
      var r;
      ok, r := ReadDp(DP_RDBUFF);
      StoreWord(data, at, size, 4 * i, r, target.mem, addr, ok && !stale && !target.noisy);
    }

    /** Word `i` of the block is in the read buffer, and TAR is at the next one. */
    ghost predicate Posted(addr: u32, size: nat, i: nat)
      requires |target.mem| == ADDRESS_SPACE && addr + size <= ADDRESS_SPACE && 4 * i + 4 <= size
      reads target
    {
      && target.dap.select == 0 && target.dap.csw == CSW_VALUE + CSW_SIZE32
      && (4 * (i + 1) < size ==> target.dap.tar == addr + 4 * (i + 1))
      && target.dap.rdbuf == Word(target.mem[addr + 4 * i..addr + 4 * i + 4])
    }

    /** Brings word `i` of the block into `data` and asks for the next one. */
    method ReadNext(addr: u32, data: array<byte>, at: nat, size: nat, i: nat) returns (ok: bool)
      requires Valid() && addr % 4 == 0 && size % 4 == 0 && addr % PAGE + size <= PAGE
      requires addr + size <= ADDRESS_SPACE && at + size <= data.Length && 4 * (i + 1) < size
      requires !stale && !target.noisy ==> Posted(addr, size, i)
      requires !stale && !target.noisy ==> data[at..at + 4 * i] == target.mem[addr..addr + 4 * i]
      modifies data
      modifies target`dap, target`mem, target`waits, target`answers, target`noisy
      ensures Valid() && target.mem == old(target.mem)
      ensures old(target.noisy) ==> target.noisy
      ensures SameAround(old(data[..]), data[..], at, size)
      ensures ok && !stale && !target.noisy ==> Posted(addr, size, i + 1)
      ensures ok && !stale && !target.noisy ==> data[at..at + 4 * (i + 1)] == target.mem[addr..addr + 4 * (i + 1)]
      ensures target.reliable ==> ok && target.noisy == old(target.noisy)
      ensures target.dap.select == old(target.dap.select) && target.dap.csw == old(target.dap.csw)
    {
      PageStep(addr, size, i + 1);
      var r;
      ok, r := FetchWord();
      if ok {
        StoreWord(data, at, size, 4 * i, r, target.mem, addr, !stale && !target.noisy);
      }
    }

    /** Reads `size` bytes of target memory into `data` from index `at` on. */
    method ReadMemory(addr: u32, data: array<byte>, at: nat, size: nat) returns (ok: bool)
      requires Valid() && addr + size <= ADDRESS_SPACE && at + size <= data.Length
      modifies data, `select, `csw, `stale, `accesses
      modifies target`dap, target`mem, target`waits, target`answers, target`noisy
      ensures Valid()
      ensures old(target.noisy) ==> target.noisy
      ensures (old(stale) ==> stale) && (ok ==> stale == old(stale))
      ensures ok ==> accesses == old(accesses) + Plan(addr, size)
      ensures !old(stale) ==> target.mem == old(target.mem)
      ensures SameAround(old(data[..]), data[..], at, size)
      ensures ok && !stale && !target.noisy ==> data[at..at + size] == target.mem[addr..addr + size]
      ensures target.reliable ==> ok && target.noisy == old(target.noisy)
      ensures ok && !old(target.dap.posted) ==> !target.dap.posted
    {
      var k;
      ok, k := ReadHead(addr, data, at, size);
      if !ok { return; }
      ok, k := ReadWords(addr, data, at, size, k);
      if !ok { return; }
      ok := ReadTail(addr, data, at, size, k);
    }

    /** The bytes up to a word boundary. */
    method ReadHead(addr: u32, data: array<byte>, at: nat, size: nat) returns (ok: bool, k: nat)
      requires Valid() && addr + size <= ADDRESS_SPACE && at + size <= data.Length
      modifies data, `select, `csw, `stale, `accesses
      modifies target`dap, target`mem, target`waits, target`answers, target`noisy
      ensures Valid()
      ensures old(target.noisy) ==> target.noisy
      ensures (old(stale) ==> stale) && (ok ==> stale == old(stale))
      ensures ok ==> k <= size && ((addr + k) % 4 == 0 || k == size)
      ensures ok ==> old(accesses) + Plan(addr, size) == accesses + Plan(addr + k, size - k)
      ensures !old(stale) ==> target.mem == old(target.mem)
      ensures SameAround(old(data[..]), data[..], at, size)
      ensures ok && !stale && !target.noisy ==> data[at..at + k] == target.mem[addr..addr + k]
      ensures target.reliable ==> ok && target.noisy == old(target.noisy)
      ensures ok && !old(target.dap.posted) ==> !target.dap.posted
    {
      hide Plan;
      k := 0;
      while k < size && (addr + k) % 4 != 0
        invariant !old(target.dap.posted) ==> !target.dap.posted
        invariant k <= size && Valid() && stale == old(stale)
        invariant (old(target.noisy) ==> target.noisy) && (target.reliable ==> target.noisy == old(target.noisy))
        invariant old(accesses) + Plan(addr, size) == accesses + Plan(addr + k, size - k)
        invariant !stale ==> target.mem == old(target.mem)
        invariant SameAround(old(data[..]), data[..], at, size)
        invariant !stale && !target.noisy ==> data[at..at + k] == target.mem[addr..addr + k]
      {
        PlanByte(addr + k, size - k);
        ok := ReadOne(addr, data, at, size, k);
        if !ok { return; }
        k := k + 1;
      }
      ok := true;
    }

    /** The word blocks. */
    method ReadWords(addr: u32, data: array<byte>, at: nat, size: nat, from: nat) returns (ok: bool, k: nat)
      requires Valid() && addr + size <= ADDRESS_SPACE && at + size <= data.Length
      requires from <= size && ((addr + from) % 4 == 0 || from == size)
      requires !stale && !target.noisy ==> data[at..at + from] == target.mem[addr..addr + from]
      modifies data, `select, `csw, `stale, `accesses
      modifies target`dap, target`mem, target`waits, target`answers, target`noisy
      ensures Valid()
      ensures old(target.noisy) ==> target.noisy
      ensures (old(stale) ==> stale) && (ok ==> stale == old(stale))
      ensures ok ==> k <= size && size - k < 4
      ensures ok ==> old(accesses) + Plan(addr + from, size - from) == accesses + Plan(addr + k, size - k)
      ensures !old(stale) ==> target.mem == old(target.mem)
      ensures SameAround(old(data[..]), data[..], at, size)
      ensures ok && !stale && !target.noisy ==> data[at..at + k] == target.mem[addr..addr + k]
      ensures target.reliable ==> ok && target.noisy == old(target.noisy)
      ensures ok && !old(target.dap.posted) ==> !target.dap.posted
    {
      hide Plan;
      k := from;
      while size - k > 3
        invariant !old(target.dap.posted) ==> !target.dap.posted
        invariant k <= size && Valid() && stale == old(stale)
        invariant (addr + k) % 4 == 0 || k == size
        invariant (old(target.noisy) ==> target.noisy) && (target.reliable ==> target.noisy == old(target.noisy))
        invariant old(accesses) + Plan(addr + from, size - from) == accesses + Plan(addr + k, size - k)
        invariant !stale ==> target.mem == old(target.mem)
        invariant SameAround(old(data[..]), data[..], at, size)
        invariant !stale && !target.noisy ==> data[at..at + k] == target.mem[addr..addr + k]
      {
        var n := PAGE - (addr + k) % PAGE;
        if size - k < n { n := size - k - (size - k) % 4; }
        PlanBlock(addr + k, size - k, n);
        ok := ReadChunk(addr, data, at, size, k, n);
        if !ok { return; }
        k := k + n;
      }
      ok := true;
    }

    /** The bytes after the last whole word. */
    method ReadTail(addr: u32, data: array<byte>, at: nat, size: nat, from: nat) returns (ok: bool)
      requires Valid() && addr + size <= ADDRESS_SPACE && at + size <= data.Length
      requires from <= size && size - from < 4
      requires !stale && !target.noisy ==> data[at..at + from] == target.mem[addr..addr + from]
      modifies data, `select, `csw, `stale, `accesses
      modifies target`dap, target`mem, target`waits, target`answers, target`noisy
      ensures Valid()
      ensures old(target.noisy) ==> target.noisy
      ensures (old(stale) ==> stale) && (ok ==> stale == old(stale))
      ensures ok ==> accesses == old(accesses) + Plan(addr + from, size - from)
      ensures !old(stale) ==> target.mem == old(target.mem)
      ensures SameAround(old(data[..]), data[..], at, size)
      ensures ok && !stale && !target.noisy ==> data[at..at + size] == target.mem[addr..addr + size]
      ensures target.reliable ==> ok && target.noisy == old(target.noisy)
      ensures ok && !old(target.dap.posted) ==> !target.dap.posted
    {
      var k := from;
      while k < size
        invariant !old(target.dap.posted) ==> !target.dap.posted
        invariant from <= k <= size && Valid() && stale == old(stale)
        invariant (old(target.noisy) ==> target.noisy) && (target.reliable ==> target.noisy == old(target.noisy))
        invariant old(accesses) + Plan(addr + from, size - from) == accesses + Plan(addr + k, size - k)
        invariant !stale ==> target.mem == old(target.mem)
        invariant SameAround(old(data[..]), data[..], at, size)
        invariant !stale && !target.noisy ==> data[at..at + k] == target.mem[addr..addr + k]
      {
        PlanByte(addr + k, size - k);
        ok := ReadOne(addr, data, at, size, k);
        if !ok { return; }
        k := k + 1;
      }
      ok := true;
    }

    /** Byte `k` of a memory read: extends the part already read by one byte. */
    method ReadOne(addr: u32, data: array<byte>, at: nat, size: nat, k: nat) returns (ok: bool)
      requires Valid() && addr + size <= ADDRESS_SPACE && at + size <= data.Length && k < size
      modifies data, `select, `csw, `stale, `accesses
      modifies target`dap, target`mem, target`waits, target`answers, target`noisy
      ensures Valid()
      ensures old(target.noisy) ==> target.noisy
      ensures (old(stale) ==> stale) && (ok ==> stale == old(stale))
      ensures accesses == old(accesses) + [Single(addr + k)]
      ensures !old(stale) ==> target.mem == old(target.mem)
      ensures SameAround(old(data[..]), data[..], at, size)
      ensures ok && !stale && !target.noisy && old(data[at..at + k] == target.mem[addr..addr + k]) ==>
                data[at..at + k + 1] == target.mem[addr..addr + k + 1]
      ensures target.reliable ==> ok && target.noisy == old(target.noisy)
      ensures ok && !old(target.dap.posted) ==> !target.dap.posted
    {
      var v;
      ok, v := ReadByte(addr + k);
      if ok {
        data[at + k] := v;
        assert data[at..at + k + 1] == old(data[at..at + k]) + [v];
        assert target.mem[addr..addr + k + 1] == target.mem[addr..addr + k] + [target.mem[addr + k]];
      }
    }

    /** The block of `n` bytes at offset `k` of a memory read. */
    method ReadChunk(addr: u32, data: array<byte>, at: nat, size: nat, k: nat, n: nat) returns (ok: bool)
      requires Valid() && addr + size <= ADDRESS_SPACE && at + size <= data.Length
      requires 0 < n && k + n <= size && (addr + k) % 4 == 0 && n % 4 == 0 && (addr + k) % PAGE + n <= PAGE
      modifies data, `select, `csw, `stale, `accesses
      modifies target`dap, target`mem, target`waits, target`answers, target`noisy
      ensures Valid()
      ensures old(target.noisy) ==> target.noisy
      ensures (old(stale) ==> stale) && (ok ==> stale == old(stale))
      ensures accesses == old(accesses) + [Block(addr + k, n)]
      ensures !old(stale) ==> target.mem == old(target.mem)
      ensures SameAround(old(data[..]), data[..], at, size)
      ensures ok && !stale && !target.noisy && old(data[at..at + k] == target.mem[addr..addr + k]) ==>
                data[at..at + k + n] == target.mem[addr..addr + k + n]
      ensures target.reliable ==> ok && target.noisy == old(target.noisy)
      ensures ok && !old(target.dap.posted) ==> !target.dap.posted
    {
      hide SameAround, Coherent;
      ghost var before := data[..];
      ok := ReadBlock(addr + k, data, at + k, n);
      SameAroundWiden(before, data[..], at + k, n, at, size);
      PieceRead(before, data[..], at, k, n, target.mem, addr);
    }

    /** Writes `data` to target memory at `addr`. */
    method WriteMemory(addr: u32, data: seq<byte>) returns (ok: bool)
      requires Valid() && addr + |data| <= ADDRESS_SPACE
      modifies `select, `csw, `stale, `accesses, `nulled
      modifies target`dap, target`mem, target`waits, target`answers, target`noisy
      ensures Valid()
      ensures old(target.noisy) ==> target.noisy
      ensures (old(stale) ==> stale) && (ok ==> stale == old(stale))
      ensures ok ==> accesses == old(accesses) + Plan(addr, |data|)
      ensures ok && !stale ==> target.mem == Overlay(old(target.mem), addr, data)
      ensures !old(stale) ==> SameAround(old(target.mem), target.mem, addr, |data|)
      ensures target.reliable ==>
                && target.noisy == old(target.noisy) && ok == !NullWrite(addr, |data|)
                && nulled == (old(nulled) || NullWrite(addr, |data|))
      ensures (NullWrite(addr, |data|) ==> !ok) && (!NullWrite(addr, |data|) ==> nulled == old(nulled))
      ensures ok && !old(target.dap.posted) ==> !target.dap.posted
    {
      ghost var mem := target.mem;
      var k;
      ok, k := WriteHead(addr, data, mem);
      if !ok { return; }
      ok, k := WriteWords(addr, data, k, mem);
      if !ok { return; }
      ok := WriteTail(addr, data, k, mem);
      assert data[..|data|] == data;
    }

    /** The bytes up to a word boundary, of a write that found memory `mem`. */
    method WriteHead(addr: u32, data: seq<byte>, ghost mem: seq<byte>) returns (ok: bool, k: nat)
      requires Valid() && addr + |data| <= ADDRESS_SPACE && target.mem == mem
      modifies `select, `csw, `stale, `accesses, `nulled
      modifies target`dap, target`mem, target`waits, target`answers, target`noisy
      ensures Valid()
      ensures old(target.noisy) ==> target.noisy
      ensures (old(stale) ==> stale) && (ok ==> stale == old(stale))
      ensures ok ==> k <= |data| && ((addr + k) % 4 == 0 || k == |data|) && (addr == 0 ==> k == 0)
      ensures ok ==> old(accesses) + Plan(addr, |data|) == accesses + Plan(addr + k, |data| - k)
      ensures ok && !stale ==> target.mem == Overlay(mem, addr, data[..k])
      ensures !old(stale) ==> SameAround(mem, target.mem, addr, |data|)
      ensures target.reliable ==> ok && target.noisy == old(target.noisy)
      ensures nulled == old(nulled)
      ensures ok && !old(target.dap.posted) ==> !target.dap.posted
    {
      hide Plan;
      k := 0;
      while k < |data| && (addr + k) % 4 != 0
        invariant !old(target.dap.posted) ==> !target.dap.posted
        invariant k <= |data| && Valid() && stale == old(stale) && nulled == old(nulled) && (addr == 0 ==> k == 0)
        invariant (old(target.noisy) ==> target.noisy) && (target.reliable ==> target.noisy == old(target.noisy))
        invariant old(accesses) + Plan(addr, |data|) == accesses + Plan(addr + k, |data| - k)
        invariant !stale ==> target.mem == Overlay(mem, addr, data[..k])
        invariant !stale ==> SameAround(mem, target.mem, addr, |data|)
      {
        PlanByte(addr + k, |data| - k);
        ok := WriteOne(addr, data, k, mem);
        if !ok { return; }
        k := k + 1;
      }
      ok := true;
    }

    /** The word blocks. */
    method WriteWords(addr: u32, data: seq<byte>, from: nat, ghost mem: seq<byte>) returns (ok: bool, k: nat)
      requires Valid() && addr + |data| <= ADDRESS_SPACE == |mem|
      requires from <= |data| && ((addr + from) % 4 == 0 || from == |data|)
      requires !stale ==> target.mem == Overlay(mem, addr, data[..from]) && SameAround(mem, target.mem, addr, |data|)
      modifies `select, `csw, `stale, `accesses
      modifies target`dap, target`mem, target`waits, target`answers, target`noisy
      ensures Valid()
      ensures old(target.noisy) ==> target.noisy
      ensures (old(stale) ==> stale) && (ok ==> stale == old(stale))
      ensures ok ==> from <= k <= |data| && |data| - k < 4
      ensures ok ==> old(accesses) + Plan(addr + from, |data| - from) == accesses + Plan(addr + k, |data| - k)
      ensures ok && !stale ==> target.mem == Overlay(mem, addr, data[..k])
      ensures !old(stale) ==> SameAround(mem, target.mem, addr, |data|)
      ensures ok && |data| - from >= 4 ==> k > 0
      ensures ok && |data| - from < 4 ==> k == from
      ensures target.reliable ==> ok && target.noisy == old(target.noisy)
      ensures ok && !old(target.dap.posted) ==> !target.dap.posted
    {
      hide Plan;
      k := from;
      while |data| - k > 3
        invariant !old(target.dap.posted) ==> !target.dap.posted
        invariant from <= k <= |data| && Valid() && stale == old(stale) && (|data| - from < 4 ==> k == from)
        invariant (addr + k) % 4 == 0 || k == |data|
        invariant (old(target.noisy) ==> target.noisy) && (target.reliable ==> target.noisy == old(target.noisy))
        invariant old(accesses) + Plan(addr + from, |data| - from) == accesses + Plan(addr + k, |data| - k)
        invariant !stale ==> target.mem == Overlay(mem, addr, data[..k])
        invariant !stale ==> SameAround(mem, target.mem, addr, |data|)
      {
        var n := PAGE - (addr + k) % PAGE;
        if |data| - k < n { n := |data| - k - (|data| - k) % 4; }
        PlanBlock(addr + k, |data| - k, n);
        ok := WriteChunk(addr, data, k, n, mem);
        if !ok { return; }
        k := k + n;
      }
      ok := true;
    }

    /** The bytes after the last whole word. */
    method WriteTail(addr: u32, data: seq<byte>, from: nat, ghost mem: seq<byte>) returns (ok: bool)
      requires Valid() && addr + |data| <= ADDRESS_SPACE == |mem|
      requires from <= |data| && |data| - from < 4
      requires !stale ==> target.mem == Overlay(mem, addr, data[..from]) && SameAround(mem, target.mem, addr, |data|)
      modifies `select, `csw, `stale, `accesses, `nulled
      modifies target`dap, target`mem, target`waits, target`answers, target`noisy
      ensures Valid()
      ensures old(target.noisy) ==> target.noisy
      ensures (old(stale) ==> stale) && (ok ==> stale == old(stale))
      ensures ok ==> accesses == old(accesses) + Plan(addr + from, |data| - from)
      ensures ok && !stale ==> target.mem == Overlay(mem, addr, data[..|data|])
      ensures !old(stale) ==> SameAround(mem, target.mem, addr, |data|)
      ensures target.reliable ==>
                && target.noisy == old(target.noisy) && ok == !(addr + from == 0 && from < |data|)
                && nulled == (old(nulled) || (addr + from == 0 && from < |data|))
      ensures addr + from == 0 && from < |data| ==> !ok
      ensures addr + from != 0 || from == |data| ==> nulled == old(nulled)
      ensures ok && !old(target.dap.posted) ==> !target.dap.posted
    {
      var k := from;
      while k < |data|
        invariant !old(target.dap.posted) ==> !target.dap.posted
        invariant from <= k <= |data| && Valid() && stale == old(stale)
        invariant nulled == old(nulled) && (addr + from == 0 ==> k == from)
        invariant (old(target.noisy) ==> target.noisy) && (target.reliable ==> target.noisy == old(target.noisy))
        invariant old(accesses) + Plan(addr + from, |data| - from) == accesses + Plan(addr + k, |data| - k)
        invariant !stale ==> target.mem == Overlay(mem, addr, data[..k])
        invariant !stale ==> SameAround(mem, target.mem, addr, |data|)
      {
        PlanByte(addr + k, |data| - k);
        ok := WriteOne(addr, data, k, mem);
        if !ok { return; }
        k := k + 1;
      }
      ok := true;
    }

    /** Byte `k` of a memory write that found memory `mem` when it began. */
    method WriteOne(addr: u32, data: seq<byte>, k: nat, ghost mem: seq<byte>) returns (ok: bool)
      requires Valid() && addr + |data| <= ADDRESS_SPACE == |mem| && k < |data|
      requires !stale ==> target.mem == Overlay(mem, addr, data[..k])
      modifies `select, `csw, `stale, `accesses, `nulled
      modifies target`dap, target`mem, target`waits, target`answers, target`noisy
      ensures Valid()
      ensures old(target.noisy) ==> target.noisy
      ensures (old(stale) ==> stale) && (ok ==> stale == old(stale))
      ensures accesses == old(accesses) + [Single(addr + k)]
      ensures ok && !stale ==> target.mem == Overlay(mem, addr, data[..k + 1])
      ensures !old(stale) ==> SameAround(mem, target.mem, addr, |data|)
      ensures target.reliable ==>
                target.noisy == old(target.noisy) && ok == (addr + k != 0) && nulled == (old(nulled) || addr + k == 0)
      ensures (addr + k == 0 ==> !ok) && (addr + k != 0 ==> nulled == old(nulled))
      ensures ok && !old(target.dap.posted) ==> !target.dap.posted
    {
      OverlayMore(mem, addr, data, k, 1);
      ok := WriteByte(addr + k, data[k]);
    }

    /** The block of `n` bytes at offset `k` of a memory write that found memory `mem` when it began. */
    method WriteChunk(addr: u32, data: seq<byte>, k: nat, n: nat, ghost mem: seq<byte>) returns (ok: bool)
      requires Valid() && addr + |data| <= ADDRESS_SPACE == |mem|
      requires 0 < n && k + n <= |data| && (addr + k) % 4 == 0 && n % 4 == 0 && (addr + k) % PAGE + n <= PAGE
      requires !stale ==> target.mem == Overlay(mem, addr, data[..k])
      modifies `select, `csw, `stale, `accesses
      modifies target`dap, target`mem, target`waits, target`answers, target`noisy
      ensures Valid()
      ensures old(target.noisy) ==> target.noisy
      ensures (old(stale) ==> stale) && (ok ==> stale == old(stale))
      ensures accesses == old(accesses) + [Block(addr + k, n)]
      ensures ok && !stale ==> target.mem == Overlay(mem, addr, data[..k + n])
      ensures !old(stale) ==> SameAround(mem, target.mem, addr, |data|)
      ensures target.reliable ==> ok && target.noisy == old(target.noisy)
      ensures ok && !old(target.dap.posted) ==> !target.dap.posted
    {
      ghost var m := target.mem;
      OverlayMore(mem, addr, data, k, n);
      ok := WriteBlock(addr + k, data[k..k + n]);
      if !old(stale) { SameAroundTrans(mem, m, target.mem, addr, |data|, addr + k, n); }
    }

    /** Brings up the debug port: wakes it, clears its error flags, asks for power and waits until there is. From
        here on the cache is right. */
    method InitDebug() returns (ok: bool)
      requires target.Sized()
      modifies `select, `csw, `stale
      modifies target`dap, target`mem, target`waits, target`answers, target`noisy
      ensures Valid() && target.mem == old(target.mem)
      ensures old(target.noisy) ==> target.noisy
      ensures ok ==> !stale && target.dap.select == 0
      ensures target.dap.port.switches == old(target.dap.port.switches) + 1
      ensures ok ==> var p := target.dap.port; p.awake && p.powered && !p.sticky && p.ctrl == 0x5000_0F00
      ensures target.reliable ==> ok && target.noisy == old(target.noisy)
    {
      select, csw, stale := PLACEHOLDER, PLACEHOLDER, false;
      target.SwitchToSwd();
      var val;
      ok, val := ReadDp(DP_IDCODE);
      if !ok { return; }
      ok := WriteDp(DP_ABORT, 0x1E);
      if !ok { return; }
      ok := WriteDp(DP_SELECT, 0);
      if !ok { return; }
      ok := WriteDp(DP_CTRL_STAT, 0x5000_0000);
      if !ok { return; }
      var i := 0;
      while i < 100
        invariant i <= 100 && Valid() && !stale && target.mem == old(target.mem)
        invariant target.dap.select == 0 && (target.reliable ==> i < 100)
        invariant target.dap.port.switches == old(target.dap.port.switches) + 1
        invariant var p := target.dap.port; p.awake && !p.sticky && p.ctrl == 0x5000_0000 && p.polls >= i
        invariant (old(target.noisy) ==> target.noisy) && (target.reliable ==> target.noisy == old(target.noisy))
      {
        ok, val := ReadDp(DP_CTRL_STAT);
        if !ok { return; }
        if val / 0x2000_0000 % 2 == 1 && val / 0x8000_0000 == 1 { break; }
        i := i + 1;
      }
      if i == 100 { return false; }
      ok := WriteDp(DP_CTRL_STAT, 0x5000_0F00);
      if !ok { return; }
      ok := WriteDp(DP_SELECT, 0);
    }

    /** Resets the target for programming, or lets it run the application. What the reset sequence does
        through debug registers is not modelled. */
    method SetTargetState(run: bool) returns (ok: bool)
      requires target.Valid() && (run ==> Valid())
      modifies `select, `csw, `stale
      modifies target`dap, target`mem, target`waits, target`answers, target`noisy, target`log, target`phase
      ensures Valid() && target.Valid() && target.Flash() == old(target.Flash())
      ensures old(target.noisy) ==> target.noisy
      ensures target.log == old(target.log) + [if run then Run else Reset]
      ensures target.phase == Next(target.chip, old(target.phase), if run then Run else Reset)
      ensures ok && !run ==> !stale && !target.dap.posted
      ensures target.reliable ==> ok && target.noisy == old(target.noisy)
    {
      var up := true;
      if !run { up := InitDebug(); }
      var done := target.Restart(run);
      ok := up && done;
    }

    /** Runs a routine of the algorithm on the target. Registers are set up, and the halt is awaited,
        through the debug registers; that is not modelled. */
    method FlashSyscallExec(a: Algo, routine: Routine, addr: u32, size: u32, buffer: u32) returns (ok: bool)
      requires Valid() && target.Valid()
      modifies `select, `csw, `stale
      modifies target`dap, target`mem, target`waits, target`answers, target`noisy, target`log, target`phase
      ensures Valid() && target.Valid()
      ensures old(target.noisy) ==> target.noisy
      ensures (old(stale) ==> stale) && (ok ==> stale == old(stale))
      ensures target.log == old(target.log) +
                [Call(a, routine, addr, size, buffer, ok, Resident(old(target.mem), a), !old(target.dap.posted),
                      Blank(old(target.mem), addr, size))]
      ensures target.dap.posted == old(target.dap.posted)
      ensures target.phase == Next(target.chip, old(target.phase), target.log[|target.log| - 1])
      ensures forall i :: 0 <= i < ADDRESS_SPACE && !MayTouch(target.chip, a, routine, addr, size, i) ==>
                target.mem[i] == old(target.mem[i])
      ensures var z := SizeAt(target.chip, addr);
              ok && !target.noisy && routine.EraseSector? && target.erases && addr + z <= ADDRESS_SPACE ==>
                Blank(target.mem, addr, z)
      ensures ok && !target.noisy && routine.Verify?
              && addr + size <= ADDRESS_SPACE && buffer + size <= ADDRESS_SPACE ==>
                target.mem[addr..addr + size] == target.mem[buffer..buffer + size]
      ensures target.reliable ==> target.noisy == old(target.noisy) && (!routine.Verify? ==> ok)
      ensures target.reliable && addr + size <= ADDRESS_SPACE && buffer + size <= ADDRESS_SPACE ==>
                && (routine.ProgramPage? && Blank(old(target.mem), addr, size) ==>
                      target.mem[addr..addr + size] == old(target.mem)[buffer..buffer + size])
                && (routine.Verify? && old(target.mem)[addr..addr + size] == old(target.mem)[buffer..buffer + size] ==>
                      ok)
    {
      ok := target.RunRoutine(a, routine, addr, size, buffer);
    }
  }

  /** Overlaying a prefix of `data`, and then the next `n` bytes of it. */
  lemma OverlayMore(mem: seq<byte>, addr: nat, data: seq<byte>, k: nat, n: nat)
    requires addr + |data| <= |mem| && k + n <= |data|
    ensures Overlay(Overlay(mem, addr, data[..k]), addr + k, data[k..k + n]) == Overlay(mem, addr, data[..k + n])
    ensures n == 1 ==> data[k..k + n] == [data[k]]
    ensures SameAround(mem, Overlay(mem, addr, data[..k]), addr, |data|)
    ensures SameAround(mem, Overlay(mem, addr, data[..k + n]), addr, |data|)
  {
  }

  lemma SameAroundWiden(s: seq<byte>, t: seq<byte>, at: nat, n: nat, at2: nat, n2: nat)
    requires SameAround(s, t, at, n) && at2 <= at && at + n <= at2 + n2 <= |s|
    ensures SameAround(s, t, at2, n2)
  {
    assert t[..at2] == t[..at][..at2];
    assert s[..at2] == s[..at][..at2];
    assert t[at2 + n2..] == t[at + n..][at2 + n2 - at - n..];
    assert s[at2 + n2..] == s[at + n..][at2 + n2 - at - n..];
  }

  lemma InPage(x: nat, q: nat, r: nat)
    requires x == PAGE * q + r && r < PAGE
    ensures x % PAGE == r
  {
  }

  lemma FourMore(addr: nat, i: nat)
    requires addr % 4 == 0
    ensures (addr + 4 * i) % 4 == 0
  {
    assert addr + 4 * i == 4 * (addr / 4 + i);
  }

  lemma PageStep(addr: nat, size: nat, i: nat)
    requires addr % PAGE + size <= PAGE && addr % 4 == 0 && 4 * i < size
    ensures (addr + 4 * i) % PAGE == addr % PAGE + 4 * i && (addr + 4 * i) % 4 == 0
  {
    var q, r := addr / 1024, addr % 1024;
    assert addr == 1024 * q + r;
    InPage(addr + 4 * i, q, r + 4 * i);
    FourMore(addr, i);
  }

  /** The word that carries `val` on lane `k`. */
  function OnLane(val: byte, k: nat): (w: u32)
    requires k < 4
    ensures Lane(w, k) == val
  {
    if k == 0 then val
    else if k == 1 then val as int * 0x100
    else if k == 2 then val as int * 0x1_0000
    else val as int * 0x100_0000
  }

  /** Stores a word at `at + done`, extending a prefix that equals memory if the word does. */
  method StoreWord(data: array<byte>, at: nat, size: nat, done: nat, w: u32,
                   ghost mem: seq<byte>, ghost addr: nat, ghost good: bool)
    requires done + 4 <= size && at + size <= data.Length && addr + size <= |mem|
    requires good ==> data[at..at + done] == mem[addr..addr + done] && w == Word(mem[addr + done..addr + done + 4])
    modifies data
    ensures SameAround(old(data[..]), data[..], at, size)
    ensures good ==> data[at..at + done + 4] == mem[addr..addr + done + 4]
  {
    var b := WordBytes(w);
    var p := at + done;
    ghost var before := data[..];
    data[p], data[p + 1], data[p + 2], data[p + 3] := b[0], b[1], b[2], b[3];
    assert data[..] == Overlay(before, p, b);
    if good {
      WordRoundTrip(mem[addr + done..addr + done + 4]);
      assert data[at..p + 4] == before[at..p] + b;
      assert mem[addr..addr + done + 4] == mem[addr..addr + done] + mem[addr + done..addr + done + 4];
    }
  }

  lemma BankZero(addr: u32)
    requires addr % 4 == 0 && addr / 0x100 % 0x1_0000 == 0
    ensures addr / 0x100_0000 * 0x100_0000 + addr / 0x10 % 0x10 * 0x10 == 0 && addr / 4 % 4 * 4 == AP_CSW ==>
              addr == AP_CSW
  {
  }

  /** A piece read behind one that was there: together they are the memory they stand for. */
  lemma PieceRead(before: seq<byte>, now: seq<byte>, at: nat, k: nat, n: nat, mem: seq<byte>, addr: nat)
    requires SameAround(before, now, at + k, n) && addr + k + n <= |mem|
    ensures before[at..at + k] == mem[addr..addr + k] && now[at + k..at + k + n] == mem[addr + k..addr + k + n] ==>
              now[at..at + k + n] == mem[addr..addr + k + n]
  {
    assert now[at..at + k] == now[..at + k][at..] == before[..at + k][at..] == before[at..at + k];
    assert now[at..at + k + n] == now[at..at + k] + now[at + k..at + k + n];
    assert mem[addr..addr + k + n] == mem[addr..addr + k] + mem[addr + k..addr + k + n];
  }
}
