/** One packet on the two wires of the debug port: the host's bit loops against a target that follows the
    SWD protocol (ADIv5, section B4.2). Pins and delays are reduced to one event per clock. */
module SwdPacket {
  import opened Words
  import opened DebugPort

  const TRANSFER_OK: nat := 1
  const TRANSFER_WAIT: nat := 2
  const TRANSFER_FAULT: nat := 4
  const TRANSFER_NO_REPLY: nat := 7
  const TRANSFER_ERROR: nat := 8

  const REQUEST_CLOCKS: nat := 8

  // ---- bits ----

  /** The `n` low bits of `v`, least significant first. */
  function Bits(v: nat, n: nat): (s: seq<bool>)
    ensures |s| == n
  {
    if n == 0 then [] else [v % 2 == 1] + Bits(v / 2, n - 1)
  }

  function Two(n: nat): (p: nat)
    ensures p > 0
  {
    if n == 0 then 1 else 2 * Two(n - 1)
  }

  lemma {:induction false} BitsInjective(v: nat, w: nat, n: nat)
    requires v < Two(n) && w < Two(n) && Bits(v, n) == Bits(w, n)
    ensures v == w
  {
    if n > 0 {
      assert Bits(v, n)[1..] == Bits(v / 2, n - 1) && Bits(w, n)[1..] == Bits(w / 2, n - 1);
      assert Bits(v, n)[0] == Bits(w, n)[0];
      BitsInjective(v / 2, w / 2, n - 1);
    }
  }

  lemma TwoByte(n: nat)
    ensures Two(n + 8) == 0x100 * Two(n)
  {
    assert Two(n + 8) == 4 * Two(n + 6) && Two(n + 6) == 4 * Two(n + 4);
    assert Two(n + 4) == 4 * Two(n + 2) && Two(n + 2) == 4 * Two(n);
  }

  lemma TwoWord()
    ensures Two(32) == 0x1_0000_0000 && Two(31) == 0x8000_0000
  {
    TwoByte(0);
    TwoByte(8);
    TwoByte(16);
    TwoByte(24);
  }

  lemma WordBits(v: u32, w: u32)
    ensures Bits(v, 32) == Bits(w, 32) ==> v == w
  {
    TwoWord();
    if Bits(v, 32) == Bits(w, 32) { BitsInjective(v, w, 32); }
  }

  /** Shifting right and setting the top bit. */
  lemma {:induction false} ShiftIn(v: nat, b: bool, n: nat)
    requires n > 0
    ensures Bits(v / 2 + (if b then Two(n - 1) else 0), n) == Bits(v, n)[1..] + [b] || v >= Two(n)
  {
    if v < Two(n) {
      var x := v / 2 + if b then Two(n - 1) else 0;
      assert Bits(v, n)[1..] == Bits(v / 2, n - 1);
      if n == 1 {
        assert v / 2 == 0 && Two(0) == 1;
        assert Bits(x, 1) == [b] + Bits(x / 2, 0);
      } else {
        var t := if b then Two(n - 2) else 0;
        assert x == v / 2 + 2 * t;
        assert x / 2 == v / 2 / 2 + t && x % 2 == v / 2 % 2;
        ShiftIn(v / 2, b, n - 1);
      }
    }
  }

  function Ones(s: seq<bool>): nat {
    if s == [] then 0 else Ones(s[..|s| - 1]) + (if s[|s| - 1] then 1 else 0)
  }

  lemma NoOnes()
    ensures Ones([]) == 0
  {
  }

  lemma OnesMore(s: seq<bool>, b: bool)
    ensures Ones(s + [b]) == Ones(s) + (if b then 1 else 0)
  {
    assert (s + [b])[..|s|] == s;
  }

  /** In how many places two strings of bits differ. */
  function Differ(s: seq<bool>, t: seq<bool>): nat
    requires |s| == |t|
  {
    if s == [] then 0
    else Differ(s[..|s| - 1], t[..|t| - 1]) + (if s[|s| - 1] != t[|t| - 1] then 1 else 0)
  }

  lemma DifferMore(s: seq<bool>, t: seq<bool>, a: bool, b: bool)
    requires |s| == |t|
    ensures Differ(s + [a], t + [b]) == Differ(s, t) + (if a != b then 1 else 0)
  {
    assert (s + [a])[..|s|] == s && (t + [b])[..|t|] == t;
  }

  lemma {:induction false} DifferNone(s: seq<bool>, t: seq<bool>)
    requires |s| == |t|
    ensures Differ(s, t) == 0 <==> s == t
    decreases |s|
  {
    if s != [] {
      var n := |s| - 1;
      DifferNone(s[..n], t[..n]);
      assert s == s[..n] + [s[n]] && t == t[..n] + [t[n]];
    }
  }

  /** The number of differences has the parity of the ones on both sides. */
  lemma {:induction false} DifferParity(s: seq<bool>, t: seq<bool>)
    requires |s| == |t|
    ensures Even(Ones(s) + Ones(t) + Differ(s, t))
    decreases |s|
  {
    if s != [] { DifferParity(s[..|s| - 1], t[..|t| - 1]); }
  }

  /** The value of bits, least significant first. */
  function Value(s: seq<bool>): nat {
    if s == [] then 0 else (if s[0] then 1 else 0) + 2 * Value(s[1..])
  }

  lemma {:induction false} ValueOfBits(v: nat, n: nat)
    requires v < Two(n)
    ensures Value(Bits(v, n)) == v
  {
    if n > 0 {
      assert Bits(v, n)[1..] == Bits(v / 2, n - 1);
      ValueOfBits(v / 2, n - 1);
    }
  }

  /** A word and its parity bit, as they go over the wire. */
  function DataBits(w: u32): (s: seq<bool>)
    ensures |s| == 33
  {
    Bits(w, 32) + [Ones(Bits(w, 32)) % 2 == 1]
  }

  lemma WordReceived(w: u32)
    ensures Value(DataBits(w)[..32]) == w
  {
    TwoWord();
    ValueOfBits(w, 32);
    assert DataBits(w)[..32] == Bits(w, 32);
  }

  // ---- the target ----

  /** What the target answers to the next request: nothing, or an acknowledge and a word to read. */
  datatype Reply = Silent | Reply(ack: nat, word: u32)

  predicate ValidReply(r: Reply) {
    r.Reply? ==> r.ack in {1, 2, 4}
  }

  /** A packet the target has completed; `data` are the bits it was sent. */
  datatype Packet = NoPacket | Packet(request: Request, ack: nat, data: seq<bool>)

  datatype Target =
    | Listening(last: Packet)
    | Header(bits: seq<bool>)                                      // after the start bit
    | Turning(q: Request)
    | Acking(q: Request, left: seq<bool>)
    | Sending(q: Request, left: seq<bool>)
    | Releasing(q: Request)
    | Taking(q: Request, got: seq<bool>)
    | Deaf                                                         // until the next line reset

  predicate Drives(s: Target) {
    (s.Acking? || s.Sending?) && s.left != []
  }

  /** APnDP, RnW, A2, A3, their parity, stop and park. */
  predicate WellFormed(h: seq<bool>) {
    |h| == 7 && Ones(h[..5]) % 2 == 0 && !h[5] && h[6]
  }

  function Decoded(h: seq<bool>): Request
    requires |h| == 7
  {
    Request(h[0], h[1], (if h[2] then 4 else 0) + (if h[3] then 8 else 0))
  }

  /** The target's state after a clock in which the line carried `b`. */
  function Next(r: Reply, s: Target, b: bool): Target {
    match s
    case Listening(_) => if b then Header([]) else s
    case Header(bits) =>
      if |bits| < 6 then Header(bits + [b])
      else if |bits| == 6 && WellFormed(bits + [b]) && r.Reply? then Turning(Decoded(bits + [b]))
      else Deaf
    case Turning(q) => Acking(q, Bits(if r.Reply? then r.ack else 0, 3))
    case Acking(q, left) =>
      if |left| > 1 then Acking(q, left[1..])
      else if r.Reply? && r.ack == TRANSFER_OK && q.read then Sending(q, DataBits(r.word))
      else Releasing(q)
    case Sending(q, left) => if |left| > 1 then Sending(q, left[1..]) else Releasing(q)
    case Releasing(q) =>
      if r.Reply? && r.ack == TRANSFER_OK && !q.read then Taking(q, [])
      else Listening(Packet(q, if r.Reply? then r.ack else 0, []))
    case Taking(q, got) =>
      if |got| < 32 then Taking(q, got + [b])
      else Listening(Packet(q, TRANSFER_OK, got + [b]))
    case Deaf => Deaf
  }

  lemma Small(x: u32)
    ensures Wrap(0 + x) == x
  {
  }

  // ---- the host ----

  /** The request byte for a request: SWD_REG_AP, SWD_REG_R and SWD_REG_ADR. */
  function RequestByte(q: Request): (b: u32)
    ensures RequestOf(b) == q
  {
    (if q.ap then 1 else 0) + (if q.read then 2 else 0) + q.reg
  }

  /** The request the four low bits of the request byte ask for. */
  function RequestOf(request: u32): Request {
    Request(request % 2 == 1, request / 2 % 2 == 1, request / 4 % 4 * 4)
  }

  lemma WrapParity(x: int)
    ensures Wrap(x) % 2 == x % 2
  {
    assert x == 0x1_0000_0000 * (x / 0x1_0000_0000) + Wrap(x);
  }

  /** The header bits of a request, with `p` for the parity. */
  function HeaderBits(request: u32, p: bool): seq<bool> {
    [request % 2 == 1, request / 2 % 2 == 1, request / 4 % 2 == 1, request / 8 % 2 == 1, p, false, true]
  }

  /** The unmasked sum the host takes the parity of. */
  function RequestSum(request: u32): u32 {
    Wrap(Wrap(Wrap(request + request / 2) + request / 4) + request / 8)
  }

  function Low(x: int): nat {
    x % 2
  }

  lemma AddParity(x: nat, y: nat)
    ensures Low(Wrap(x + y)) == Low(Low(x) + Low(y))
  {
    hide Wrap;
    WrapParity(x + y);
  }

  lemma LowBit(x: nat, v: nat)
    ensures Low(v) == (if v % 2 == 1 then 1 else 0)
    ensures Low(x + Low(v)) == Low(Low(x) + Low(v))
  {
  }

  /** Wrapping sums have the parity of their lowest bits. */
  lemma SumParity(a: u32, b: u32, c: u32, d: u32)
    ensures Low(Wrap(Wrap(Wrap(a + b) + c) + d)) == Low(Low(a) + Low(b) + Low(c) + Low(d))
  {
    hide Wrap;
    AddParity(a, b);
    AddParity(Wrap(a + b), c);
    AddParity(Wrap(Wrap(a + b) + c), d);
  }

  lemma OnesOfFive(a: bool, b: bool, c: bool, d: bool, e: bool)
    ensures Ones([a, b, c, d, e]) ==
            (if a then 1 else 0) + (if b then 1 else 0) + (if c then 1 else 0)
            + (if d then 1 else 0) + (if e then 1 else 0)
  {
    hide Ones;
    NoOnes();
    OnesMore([], a);
    OnesMore([a], b);
    OnesMore([a, b], c);
    OnesMore([a, b, c], d);
    OnesMore([a, b, c, d], e);
    assert [] + [a] == [a] && [a] + [b] == [a, b] && [a, b] + [c] == [a, b, c];
    assert [a, b, c] + [d] == [a, b, c, d] && [a, b, c, d] + [e] == [a, b, c, d, e];
  }

  lemma AddressBits(request: u32)
    ensures request / 4 % 4 * 4 == (if request / 4 % 2 == 1 then 4 else 0) + (if request / 8 % 2 == 1 then 8 else 0)
  {
    var x := request / 4;
    assert x / 2 == request / 8;
    assert x == 4 * (x / 4) + x % 4;
  }

  lemma HeaderDecodes(request: u32)
    ensures var h := HeaderBits(request, Low(RequestSum(request)) == 1);
            WellFormed(h) && Decoded(h) == RequestOf(request)
  {
    hide Wrap;
    var p := Low(RequestSum(request)) == 1;
    var h := HeaderBits(request, p);
    SumParity(request, request / 2, request / 4, request / 8);
    assert h[..5] == [h[0], h[1], h[2], h[3], p];
    OnesOfFive(h[0], h[1], h[2], h[3], p);
    AddressBits(request);
  }

  lemma HeaderSteps(h: seq<bool>)
    requires |h| == 7
    ensures h[..1] == [] + [h[0]] && h[..2] == h[..1] + [h[1]] && h[..3] == h[..2] + [h[2]]
    ensures h[..4] == h[..3] + [h[3]] && h[..5] == h[..4] + [h[4]] && h[..6] == h[..5] + [h[5]]
  {
  }

  lemma NextHeader(r: Reply, bits: seq<bool>, b: bool)
    requires |bits| < 6
    ensures Next(r, Header(bits), b) == Header(bits + [b])
  {
  }

  lemma Starts(r: Reply, last: Packet)
    ensures Next(r, Listening(last), true) == Header([])
    ensures Next(r, Deaf, true) == Deaf
  {
  }

  lemma NextFull(r: Reply, request: u32)
    ensures var h := HeaderBits(request, Low(RequestSum(request)) == 1);
            Next(r, Header(h[..6]), true) == if r.Reply? then Turning(RequestOf(request)) else Deaf
  {
    var h := HeaderBits(request, Low(RequestSum(request)) == 1);
    HeaderDecodes(request);
    assert h[..6] + [true] == h;
  }

  predicate Even(x: int) {
    x % 2 == 0
  }

  /** One data bit read: it arrives as `b`. */
  lemma BitHeard(sent: seq<bool>, heard: seq<bool>, b: bool)
    requires |heard| < |sent|
    ensures var k := |heard|;
            Differ(heard + [b], sent[..k + 1]) == Differ(heard, sent[..k]) + (if b != sent[k] then 1 else 0)
  {
    var k := |heard|;
    assert sent[..k + 1] == sent[..k] + [sent[k]];
    DifferMore(heard, sent[..k], b, sent[k]);
  }

  lemma NoneHeard()
    ensures Differ([], []) == 0
  {
  }

  lemma ValueShifted(val: u32, heard: seq<bool>, b: bool)
    requires |heard| < 32 && Bits(val, 32)[32 - |heard|..] == heard
    ensures Bits(val / 2 + (if b then 0x8000_0000 else 0), 32)[31 - |heard|..] == heard + [b]
  {
    TwoWord();
    ShiftIn(val, b, 32);
    var s := Bits(val, 32);
    assert (s[1..] + [b])[31 - |heard|..] == s[32 - |heard|..] + [b];
  }

  lemma EvenData(w: u32)
    ensures Even(Ones(DataBits(w)))
  {
    OnesMore(Bits(w, 32), Ones(Bits(w, 32)) % 2 == 1);
  }

  lemma NextSending(r: Reply, q: Request, data: seq<bool>, k: nat, b: bool)
    requires k < |data|
    ensures Next(r, Sending(q, data[k..]), b) == if k + 1 < |data| then Sending(q, data[k + 1..]) else Releasing(q)
  {
  }

  lemma StaysDeaf(r: Reply)
    ensures forall b :: Next(r, Deaf, b) == Deaf
  {
  }

  class Wire {
    var hostDrives: bool
    var level: bool       // what the host puts on the line when it drives
    var target: Target
    var reply: Reply
    const pulledUp: bool  // a line nobody drives reads 1
    const noise: nat      // how many data bits may reach the host inverted
    ghost var clocks: nat
    var flips: nat        // how many did
    ghost var sent: seq<bool>

    constructor (reply: Reply, deaf: bool, pulledUp: bool, noise: nat)
      ensures hostDrives && level && target == (if deaf then Deaf else Listening(NoPacket)) && this.reply == reply
      ensures this.pulledUp == pulledUp && this.noise == noise && clocks == 0 && flips == 0
    {
      hostDrives, level, this.reply := true, true, reply;
      target := if deaf then Deaf else Listening(NoPacket);
      this.pulledUp, this.noise := pulledUp, noise;
      clocks, flips, sent := 0, 0, [];
    }

    /** One clock. Host and target must not drive the line at the same time; a line nobody drives carries
        anything, and data bits from the target may be inverted on the way. */
    method Cycle() returns (bit: bool)
      requires !(hostDrives && Drives(target))
      modifies `target, `clocks, `flips, `sent
      ensures hostDrives ==> bit == level
      ensures !hostDrives && old(target.Acking? && target.left != []) ==> bit == old(target).left[0]
      ensures target == Next(reply, old(target), bit)
      ensures clocks == old(clocks) + 1
      ensures flips ==
              old(flips) + (if old(target.Sending? && target.left != [] && target.left[0] != bit) then 1 else 0)
      ensures flips <= noise || flips == old(flips)
      ensures pulledUp && !hostDrives && !old(Drives(target)) ==> bit
      ensures sent == if hostDrives then old(sent) + [bit] else old(sent)
    {
      bit := *;
      if hostDrives {
        bit := level;
      } else if target.Acking? && target.left != [] {
        bit := target.left[0];
      } else if target.Sending? && target.left != [] {
        if flips + 1 > noise { bit := target.left[0]; }
      } else if pulledUp {
        bit := true;
      }
      if target.Sending? && target.left != [] && target.left[0] != bit { flips := flips + 1; }
      target := Next(reply, target, bit);
      clocks := clocks + 1;
      if hostDrives { sent := sent + [bit]; }
    }

    /** Puts the lowest bit of `v` on the line for one clock. */
    method WriteBit(v: u32)
      requires hostDrives && !Drives(target)
      modifies `level, `target, `clocks, `flips, `sent
      ensures target == Next(reply, old(target), v % 2 == 1)
      ensures clocks == old(clocks) + 1 && flips == old(flips)
      ensures sent == old(sent) + [v % 2 == 1]
    {
      level := v % 2 == 1;
      var bit := Cycle();
    }

    /** Start bit, request, its parity, stop and park. The sum of the shifted request bytes has the parity
        of the four request bits. */
    method SendRequest(request: u32)
      requires hostDrives && (target.Listening? || target.Deaf?)
      modifies `level, `target, `clocks, `flips, `sent
      ensures clocks == old(clocks) + REQUEST_CLOCKS && flips == old(flips)
      ensures target == if old(target.Listening?) && reply.Reply? then Turning(RequestOf(request)) else Deaf
    {
      hide Next, Wrap;
      StaysDeaf(reply);
      if target.Listening? { Starts(reply, target.last); }
      WriteBit(1);
      SendHeader(request);
    }

    method SendHeader(request: u32)
      requires hostDrives && (target == Header([]) || target.Deaf?)
      modifies `level, `target, `clocks, `flips, `sent
      ensures clocks == old(clocks) + 7 && flips == old(flips)
      ensures target == if old(target.Header?) && reply.Reply? then Turning(RequestOf(request)) else Deaf
    {
      hide Next, Wrap;
      ghost var h := HeaderBits(request, Low(RequestSum(request)) == 1);
      HeaderSteps(h);
      StaysDeaf(reply);
      var parity, bit: u32 := 0, request;
      SendBit(bit, []);
      parity := Wrap(parity + bit);
      assert parity == request by { Small(request); }
      bit := request / 2;
      SendBit(bit, h[..1]);
      parity := Wrap(parity + bit);
      bit := request / 4;
      SendBit(bit, h[..2]);
      parity := Wrap(parity + bit);
      bit := request / 8;
      SendBit(bit, h[..3]);
      parity := Wrap(parity + bit);
      SendBit(parity, h[..4]);
      SendBit(0, h[..5]);
      NextFull(reply, request);
      WriteBit(1);
    }

    method SendBit(v: u32, ghost h: seq<bool>)
      requires hostDrives && (target == Header(h) || target.Deaf?) && |h| < 6
      modifies `level, `target, `clocks, `flips, `sent
      ensures clocks == old(clocks) + 1 && flips == old(flips)
      ensures target == if old(target.Deaf?) then Deaf else Header(h + [v % 2 == 1])
    {
      hide Next;
      StaysDeaf(reply);
      NextHeader(reply, h, v % 2 == 1);
      WriteBit(v);
    }

    /** Lets the line turn around. */
    method Turn()
      requires !hostDrives
      modifies `target, `clocks, `flips, `sent
      ensures clocks == old(clocks) + 1 && sent == old(sent)
      ensures old(target.Turning?) ==>
                flips == old(flips) && target == Acking(old(target).q, Bits(if reply.Reply? then reply.ack else 0, 3))
      ensures old(target.Releasing?) ==> flips == old(flips) && target == Next(reply, old(target), false)
      ensures old(target.Deaf?) ==> target.Deaf? && (flips <= noise || flips == old(flips))
    {
      var bit := Cycle();
    }

    method ReadAck() returns (ack: nat)
      requires !hostDrives && (target.Deaf? || (target.Acking? && |target.left| == 3))
      modifies `target, `clocks, `flips, `sent
      ensures clocks == old(clocks) + 3 && flips == old(flips) && ack < 8
      ensures old(target.Deaf?) ==> target.Deaf? && (pulledUp ==> ack == TRANSFER_NO_REPLY)
      ensures old(target.Acking?) ==>
                && Bits(ack, 3) == old(target).left
                && target == Next(reply, Acking(old(target).q, old(target).left[2..]), false)
    {
      ghost var left := if target.Acking? then target.left else [];
      var bit := Cycle();
      ack := if bit then 1 else 0;
      bit := Cycle();
      ack := ack + if bit then 2 else 0;
      bit := Cycle();
      ack := ack + if bit then 4 else 0;
    }

    /** The target has sent the first `k` of the bits `data`, and the host has heard `heard`. */
    ghost predicate Heard(q: Request, data: seq<bool>, heard: seq<bool>, f0: nat)
      reads this
    {
      var k := |heard|;
      && k <= |data|
      && target == (if k < |data| then Sending(q, data[k..]) else Releasing(q))
      && flips == f0 + Differ(heard, data[..k])
    }

    method ReadBit(ghost q: Request, ghost data: seq<bool>, ghost heard: seq<bool>, ghost f0: nat) returns (bit: bool)
      requires !hostDrives && (target.Deaf? || (Heard(q, data, heard, f0) && |heard| < |data|))
      modifies `target, `clocks, `flips, `sent
      ensures clocks == old(clocks) + 1
      ensures flips <= noise || flips == old(flips)
      ensures if old(target.Deaf?) then target.Deaf? else Heard(q, data, heard + [bit], f0)
    {
      hide Next;
      StaysDeaf(reply);
      if !target.Deaf? { NextSending(reply, q, data, |heard|, true); NextSending(reply, q, data, |heard|, false); }
      bit := Cycle();
      if !target.Deaf? { BitHeard(data, heard, bit); }
    }

    /** The 32 data bits and their parity. The parity is wrong exactly when an odd number of them was inverted. The
        word differs from the one the target sent in the data bits that were inverted; so if the parity is right, the
        word is right exactly when no bit was inverted. */
    method ReadData(ghost q: Request) returns (val: u32, bad: bool)
      requires !hostDrives && (target.Deaf? || (reply.Reply? && target == Sending(q, DataBits(reply.word))))
      modifies `target, `clocks, `flips, `sent
      ensures clocks == old(clocks) + 33 && (flips <= noise || flips == old(flips))
      ensures if old(target.Deaf?) then target.Deaf? else target == Releasing(q)
      ensures !old(target.Deaf?) ==>
                && 0 <= flips - old(flips) - Differ(Bits(val, 32), Bits(reply.word, 32)) <= 1
                && (bad <==> !Even(flips - old(flips)))
                && (flips == old(flips) ==> val == reply.word)
                && (!bad && val == reply.word ==> flips == old(flips))
    {
      hide Next, Bits, Wrap, DataBits, Ones, Even, Differ;
      NoOnes();
      NoneHeard();
      ghost var deaf, f0, heard := target.Deaf?, flips, [];
      ghost var data := if reply.Reply? then DataBits(reply.word) else [];
      assert data[0..] == data && data[..0] == [];
      val := 0;
      var parity: u32, k := 0, 0;
      while k < 32
        invariant k <= 32 && |heard| == k && clocks == old(clocks) + k && (flips <= noise || flips == old(flips))
        invariant target.Deaf? == deaf && (!deaf ==> Heard(q, data, heard, f0))
        invariant parity as int == Ones(heard) && Ones(heard) <= k
        invariant Bits(val, 32)[32 - k..] == heard
      {
        var bit := ReadBit(q, data, heard, f0);
        OnesMore(heard, bit);
        ValueShifted(val, heard, bit);
        parity := parity + if bit then 1 else 0;
        val := val / 2 + if bit then 0x8000_0000 else 0;
        heard := heard + [bit];
        k := k + 1;
      }
      var bit := ReadBit(q, data, heard, f0);
      OnesMore(heard, bit);
      bad := (parity % 2 == 1) != bit;
      if !deaf { ReadWhole(data, heard, bit, reply.word, val, flips - f0); }
    }

    method PutBit(v: u32, ghost q: Request, ghost got: seq<bool>)
      requires hostDrives && (target.Deaf? || target == Taking(q, got)) && |got| <= 32
      modifies `level, `target, `clocks, `flips, `sent
      ensures clocks == old(clocks) + 1 && flips == old(flips)
      ensures target == if old(target.Deaf?) then Deaf
                        else if |got| < 32 then Taking(q, got + [v % 2 == 1])
                        else Listening(Packet(q, TRANSFER_OK, got + [v % 2 == 1]))
    {
      hide Next;
      StaysDeaf(reply);
      NextTaking(reply, q, got, v % 2 == 1);
      WriteBit(v);
    }

    /** The 32 data bits and their parity, which the host takes from the sum of the unmasked shifted words. */
    method WriteData(data: u32, ghost q: Request)
      requires hostDrives && (target.Deaf? || target == Taking(q, []))
      modifies `level, `target, `clocks, `flips, `sent
      ensures clocks == old(clocks) + 33 && flips == old(flips)
      ensures target == if old(target.Deaf?) then Deaf else Listening(Packet(q, TRANSFER_OK, DataBits(data)))
    {
      hide Next, Bits, Wrap;
      ghost var got := [];
      var val, parity: u32, k := data, 0, 0;
      assert [] + Bits(val, 32) == Bits(data, 32);
      while k < 32
        invariant k <= 32 && |got| == k && clocks == old(clocks) + k && flips == old(flips)
        invariant target == if old(target.Deaf?) then Deaf else Taking(q, got)
        invariant Low(parity) == Low(Ones(got))
        invariant Bits(data, 32) == got + Bits(val, 32 - k)
      {
        PutBit(val, q, got);
        WriteStep(got, val, 32 - k, parity);
        got := got + [val % 2 == 1];
        parity := Wrap(parity + val);
        val := val / 2;
        k := k + 1;
      }
      assert got == Bits(data, 32);
      PutBit(parity, q, got);
    }

    /** One packet. Whatever is heard, it takes 46 clocks, or 13 on WAIT and FAULT: request, turnaround, acknowledge,
        turnaround, and else 32 data bits and their parity. It ends with the host
        driving high; and at no clock do both ends drive. A target that answers has understood the request,
        and on OK has taken the data with the right parity, or its word is what the host reads unless bits
        were inverted; an odd number of inversions is always reported. */
    method Transfer(request: u32, data: u32) returns (ack: nat, val: u32)
      requires hostDrives && (target.Listening? || target.Deaf?) && ValidReply(reply)
      modifies this
      ensures hostDrives && level && reply == old(reply)
      ensures clocks ==
              old(clocks) + (if ack == TRANSFER_WAIT || ack == TRANSFER_FAULT then 13 else 46)
      ensures flips <= noise || flips == old(flips)
      ensures old(target.Deaf?) || reply.Silent? ==> target.Deaf? && (pulledUp ==> ack == 7)
      ensures old(target.Listening?) && reply.Reply? ==>
                var q := RequestOf(request);
                && target ==
                   Listening(Packet(q, reply.ack, if reply.ack == TRANSFER_OK && !q.read then DataBits(data) else []))
                && flips >= old(flips)
                && (reply.ack != TRANSFER_OK || !q.read ==> ack == reply.ack)
                && (reply.ack == TRANSFER_OK && q.read ==>
                      && ack == (if Even(flips - old(flips)) then TRANSFER_OK else TRANSFER_ERROR)
                      && (ack == TRANSFER_OK ==> (val == reply.word <==> flips == old(flips))))
    {
      hide Next, Bits, Wrap, DataBits;
      ghost var q := RequestOf(request);
      val := data;
      SendRequest(request);
      hostDrives := false;
      Turn();
      ack := ReadAck();
      AckHeard(reply, q, ack);
      if ack == TRANSFER_OK {
        if request / 2 % 2 == 1 {
          var bad;
          val, bad := ReadData(q);
          if bad { ack := TRANSFER_ERROR; }
          Turn();
          hostDrives := true;
        } else {
          Turn();
          hostDrives := true;
          WriteData(data, q);
        }
      } else if ack == TRANSFER_WAIT || ack == TRANSFER_FAULT {
        Turn();
        hostDrives := true;
      } else {
        Backoff(34);
        hostDrives := true;
      }
      level := true;
    }

    method Backoff(n: nat)
      requires !hostDrives && target.Deaf?
      modifies `target, `clocks, `flips, `sent
      ensures clocks == old(clocks) + n && target.Deaf? && (flips <= noise || flips == old(flips))
    {
      for i := 0 to n
        invariant clocks == old(clocks) + i && target.Deaf? && (flips <= noise || flips == old(flips))
      {
        Turn();
      }
    }

    /** Clocks out the first `count` bits of `data`, each byte least significant bit first. No target
        answers to this. */
    method SwjSequence(count: nat, data: seq<byte>)
      requires hostDrives && reply.Silent? && (target.Listening? || target.Header? || target.Deaf?)
      requires count <= |Stream(data)|
      modifies `level, `target, `clocks, `flips, `sent
      ensures clocks == old(clocks) + count && sent == old(sent) + Stream(data)[..count]
    {
      hide Bits, Stream;
      var val: u32, n: nat, at, k := 0, 0, 0, 0;
      assert Bits(val, n) == [] && data[0..] == data;
      while k < count
        invariant k <= count && at <= |data| && n <= 8
        invariant target.Listening? || target.Header? || target.Deaf?
        invariant clocks == old(clocks) + k && sent == old(sent) + Stream(data)[..k]
        invariant Stream(data)[k..] == Bits(val, n) + Stream(data[at..])
      {
        if n == 0 {
          NextByte(data, at, Stream(data)[k..]);
          val, at, n := data[at], at + 1, 8;
        }
        NextOut(Stream(data), k, val, n, Stream(data[at..]));
        WriteBit(val);
        val, n, k := val / 2, n - 1, k + 1;
      }
    }
  }

  lemma NextByte(data: seq<byte>, at: nat, left: seq<bool>)
    requires at <= |data| && left == [] + Stream(data[at..]) && left != []
    ensures at < |data| && left == Bits(data[at], 8) + Stream(data[at + 1..])
  {
    assert left == Stream(data[at..]);
    if at < |data| { assert data[at..][1..] == data[at + 1..]; }
  }

  /** The bits of a byte string, each byte least significant bit first. */
  function Stream(data: seq<byte>): (s: seq<bool>)
    ensures |s| == 8 * |data|
  {
    if data == [] then [] else Bits(data[0], 8) + Stream(data[1..])
  }

  lemma NextOut(s: seq<bool>, k: nat, val: u32, n: nat, rest: seq<bool>)
    requires k < |s| && n > 0 && s[k..] == Bits(val, n) + rest
    ensures s[..k + 1] == s[..k] + [val % 2 == 1]
    ensures s[k + 1..] == Bits(val / 2, n - 1) + rest
  {
    assert s[k] == s[k..][0] == Bits(val, n)[0];
    assert s[k + 1..] == s[k..][1..];
  }

  lemma NextTaking(r: Reply, q: Request, got: seq<bool>, b: bool)
    requires |got| <= 32
    ensures Next(r, Taking(q, got), b) ==
            if |got| < 32 then Taking(q, got + [b]) else Listening(Packet(q, TRANSFER_OK, got + [b]))
  {
  }

  lemma WriteStep(got: seq<bool>, val: u32, n: nat, parity: u32)
    requires n > 0 && Low(parity) == Low(Ones(got))
    ensures got + Bits(val, n) == got + [val % 2 == 1] + Bits(val / 2, n - 1)
    ensures Low(Wrap(parity + val)) == Low(Ones(got + [val % 2 == 1]))
  {
    hide Wrap, Low, Ones;
    AddParity(parity, val);
    OnesMore(got, val % 2 == 1);
    LowBit(Ones(got), val);
  }

  /** The acknowledge the host has heard, if the target sent one, is the target's. */
  lemma AckHeard(r: Reply, q: Request, ack: nat)
    requires ValidReply(r) && ack < 8
    ensures r.Reply? && Bits(ack, 3) == Bits(r.ack, 3) ==> ack == r.ack
    ensures r.Reply? ==> forall left :: |left| == 1 ==>
              Next(r, Acking(q, left), false) ==
              (if r.ack == TRANSFER_OK && q.read then Sending(q, DataBits(r.word)) else Releasing(q))
    ensures r.Reply? ==>
              Next(r, Releasing(q), false) ==
              (if r.ack == TRANSFER_OK && !q.read then Taking(q, []) else Listening(Packet(q, r.ack, [])))
  {
    assert Two(3) == 8;
    if r.Reply? && Bits(ack, 3) == Bits(r.ack, 3) { BitsInjective(ack, r.ack, 3); }
  }

  /** The parity check, and the word, of a whole read; `f` of its bits were inverted. */
  lemma ReadWhole(data: seq<bool>, heard: seq<bool>, bit: bool, word: u32, val: u32, f: int)
    requires data == DataBits(word) && |heard| == 32 && Bits(val, 32) == heard
    requires f == Differ(heard + [bit], data[..33])
    ensures (Ones(heard) % 2 == 1) != bit <==> !Even(f)
    ensures Differ(heard, Bits(word, 32)) <= f <= Differ(heard, Bits(word, 32)) + 1
    ensures f == 0 ==> val == word
    ensures Even(f) && val == word ==> f == 0
  {
    hide Bits, Ones, Differ;
    assert data[..33] == data;
    EvenData(word);
    OnesMore(heard, bit);
    DifferParity(heard + [bit], data);
    DifferMore(heard, Bits(word, 32), bit, Ones(Bits(word, 32)) % 2 == 1);
    DifferNone(heard, Bits(word, 32));
    WordBits(val, word);
  }
}
