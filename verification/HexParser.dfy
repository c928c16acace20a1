/** The streaming decoder: keeps its line buffer and state between blocks, and fills an output buffer. */
module HexParsing {
  import opened Words
  import opened FlashModel
  import opened HexMachine

  datatype Status = OK | EOF | UNALIGNED | CKSUM_FAIL

  /** What the caller is told when a verdict ends the call. */
  function StatusOf(v: Verdict): Status {
    match v
    case Postponed => UNALIGNED
    case Rebased => UNALIGNED
    case Finished => EOF
    case Corrupt => CKSUM_FAIL
    case _ => OK
  }

  /** How many bytes can have been decoded: each record after the first one costs its own characters. */
  predicate Credit(p: Parser, count: nat, consumed: nat) {
    if p.processed then 2 * count <= 64 + consumed
    else count == 0 || 2 * count + 2 * p.idx + (if p.low then 1 else 0) <= 64 + consumed
  }

  lemma CreditKept(p: Parser, c: byte, count: nat, consumed: nat)
    requires Shaped(p) && !p.load && Credit(p, count, consumed)
    ensures var (q, v) := Act(p, c);
            && (v.Keep? || v.Postponed? ==> Credit(q, count, consumed + 1))
            && (v.Data? ==> Credit(q, count + q.line[0] as int, consumed + 1))
            && (v.Rebased? ==> 2 * count <= 64 + consumed)
  {
  }

  lemma StartKept(start: u32, count: nat)
    ensures Wrap(Wrap(start + count) - count) == start
  {
    WrapTwice(start + count, 0 - count as int);
    assert Wrap(start) == start;
  }

  class HexParser {
    const line: array<byte>
    var next: u32
    var low: bool
    var idx: nat
    var processed: bool
    var load: bool
    var skip: bool
    var version: nat

    ghost function State(): Parser
      reads this, line
    {
      Parser(line[..], next, low, idx, processed, load, skip, version)
    }

    ghost predicate Valid()
      reads this, line
    {
      Shaped(State())
    }

    constructor ()
      ensures Valid() && State() == RESET && fresh(line)
    {
      line := new byte[LINE_SIZE](i => 0);
      next, low, idx, processed, load, skip, version := 0, false, 0, false, false, false, 0;
    }

    method Reset()
      requires Valid()
      modifies this, line
      ensures Valid() && State() == RESET
    {
      ClearLine();
      next, low, idx, processed, load, skip, version := 0, false, 0, false, false, false, 0;
    }

    method ClearLine()
      requires line.Length == LINE_SIZE
      modifies line
      ensures line[..] == Filled(LINE_SIZE, 0)
    {
      for i := 0 to LINE_SIZE
        invariant forall j :: 0 <= j < i ==> line[j] == 0
      {
        line[i] := 0;
      }
    }

    /** Adds up the record, checksum included, modulo 256. */
    method ValidateChecksum() returns (ok: bool)
      requires line.Length == LINE_SIZE && line[0] as int <= MAX_COUNT
      ensures ok == ChecksumOk(line[..])
    {
      var result: byte, i := 0, 0;
      while i < line[0] as int + 5
        invariant i <= line[0] as int + 5
        invariant result as int == Sum(line[..][..i]) % 0x100
      {
        assert line[..][..i + 1][..i] == line[..][..i];
        SumMod(Sum(line[..][..i]), line[i] as int);
        result := (result as int + line[i] as int) % 0x100;
        i := i + 1;
      }
      ok := result == 0;
    }

    /** Takes in one character. */
    method Consume(c: byte) returns (v: Verdict)
      requires Valid() && !load && !Act(State(), c).1.Overrun?
      modifies this, line
      ensures Valid() && (State(), v) == Act(old(State()), c)
    {
      if c == CR || c == LF { return Keep; }
      if c == COLON {
        ClearLine();
        low, idx, processed := false, 0, false;
        return Keep;
      }
      if low {
        v := ConsumeLow(c);
      } else {
        if idx < LINE_SIZE { line[idx] := Ctoh(c) as int * 0x10 % 0x100; }
        low := true;
        v := Keep;
      }
    }

    method ConsumeLow(c: byte) returns (v: Verdict)
      requires Valid() && !load && low && !LowDigit(State(), c).1.Overrun?
      modifies this, line
      ensures Valid() && (State(), v) == LowDigit(old(State()), c)
    {
      hide Complete;
      OrFits(line[idx], Ctoh(c) as int % 0x10);
      line[idx] := Or(line[idx] as int, Ctoh(c) as int % 0x10);
      idx := idx + 1;
      if idx >= line[0] as int + 5 {
        var ok := ValidateChecksum();
        if !ok { return Corrupt; }
        if !processed {
          v := Finish();
          return;
        }
      }
      low := false;
      v := Keep;
    }

    /** Acts on a record whose checksum is right. */
    method Finish() returns (v: Verdict)
      requires line.Length == LINE_SIZE && line[0] as int <= MAX_COUNT && !load
      modifies this, line
      ensures (State(), v) == Complete(old(State()))
    {
      processed := true;
      line[1], line[2] := line[2], line[1];
      var kind := line[3];
      if kind == CUSTOM_METADATA_RECORD {
        version := line[4] as int * 0x100 + line[5] as int;
      } else if kind == DATA_RECORD || kind == CUSTOM_DATA_RECORD {
        if version != 0 {
          skip := true;
          return Skipping;
        }
        if Joined(next, Address(line[..])) != next {
          load := true;
          return Postponed;
        }
        next := After(next, line[0]);
        low := false;
        return Data;
      } else if kind == EOF_RECORD {
        return Finished;
      } else if kind == EXT_SEG_ADDR_RECORD {
        next := SegmentBase(line[..]);
        return Rebased;
      } else if kind == EXT_LINEAR_ADDR_RECORD {
        next := LinearBase(line[..]);
        return Rebased;
      }
      low := false;
      v := Keep;
    }

    /** Appends the payload of the record in the line buffer to the output. */
    method CopyPayload(bin: array<byte>, count: nat)
      requires Valid() && bin != line && line[0] as int <= MAX_COUNT && count + line[0] as int <= bin.Length
      modifies bin
      ensures bin[..count + line[0] as int] == old(bin[..count]) + Payload(line[..])
    {
      ghost var before := bin[..count];
      var n := line[0] as int;
      for i := 0 to n
        invariant bin[..count] == before
        invariant bin[count..count + i] == line[4..4 + i]
      {
        bin[count + i] := line[4 + i];
      }
      assert bin[..count + n] == bin[..count] + bin[count..count + n];
      assert Payload(line[..]) == line[4..4 + n];
    }

    /** The parser a block starts with: a block that begins a record ends the skipping. */
    ghost function Begun(): Parser
      reads this, line
    {
      State().(skip := false)
    }

    /** The block is dropped whole. */
    predicate Skips(blob: seq<byte>)
      requires skip ==> blob != []
      reads this
    {
      skip && blob[0] != COLON
    }

    /** Decodes a block. `start` is the address of the decoded bytes `bin[..count]`, and `used` counts the
        characters consumed. The rest of the output buffer is filled with 0xFF. */
    method ParseBlob(blob: seq<byte>, bin: array<byte>) returns (status: Status, used: nat, start: u32, count: nat)
      requires Valid() && bin != line && bin.Length == 256 && |blob| <= 448
      requires skip ==> blob != []
      requires !Skips(blob) ==> !Feed(Begun(), blob).end.OutOfLine?
      modifies this, line, bin
      ensures Valid() && used <= |blob| && count <= bin.Length && 2 * count <= 64 + used + 1
      ensures forall i :: count <= i < bin.Length ==> bin[i] == ERASED
      ensures old(Skips(blob)) ==> status.OK? && used == 0 && count == 0 && State() == old(State())
      ensures !old(Skips(blob)) ==> Outcome(old(Begun()), blob, status, used, start, bin[..count])
    {
      count, used := 0, 0;
      if skip {
        if blob[0] == COLON {
          skip := false;
        } else {
          FillRest(bin, 0);
          return OK, 0, next, 0;
        }
      }
      status, used, start, count := Decode(blob, bin);
      FillRest(bin, count);
    }

    method FillRest(bin: array<byte>, count: nat)
      requires count <= bin.Length
      modifies bin
      ensures bin[..count] == old(bin[..count])
      ensures forall i :: count <= i < bin.Length ==> bin[i] == ERASED
    {
      for i := count to bin.Length
        invariant bin[..count] == old(bin[..count])
        invariant forall j :: count <= j < i ==> bin[j] == ERASED
      {
        bin[i] := ERASED;
      }
    }

    /** Pops a postponed record, then takes in characters until the block or the run of addresses ends. */
    method Decode(blob: seq<byte>, bin: array<byte>) returns (status: Status, used: nat, start: u32, count: nat)
      requires Valid() && bin != line && bin.Length == 256 && |blob| <= 448 && !skip
      requires !Feed(State(), blob).end.OutOfLine?
      modifies this, line, bin
      ensures Valid() && used <= |blob| && count <= bin.Length && 2 * count <= 64 + used + 1
      ensures Outcome(old(State()), blob, status, used, start, bin[..count])
    {
      hide Act, Credit, Feed, Wrap, CellsFrom;
      ghost var p0 := State();
      used := 0;
      ghost var first;
      first, count := Begin(blob, bin);
      while used < |blob|
        invariant used <= |blob| && Decoding(p0, blob, first, bin, count, used)
        invariant used == 0 && p0.processed ==> processed
      {
        var was, v := next, Keep;
        v, count := TakeNext(blob, bin, count, used, p0, first);
        if !v.Keep? && !v.Data? {
          start := Wrap((if v.Rebased? then was else next) - count);
          return StatusOf(v), if v.Postponed? then used + 1 else used, start, count;
        }
        used := used + 1;
      }
      start := AtEnd(blob, bin, count, p0, first);
      status := OK;
    }

    /** The block has been consumed to its end. */
    method AtEnd(blob: seq<byte>, bin: array<byte>, count: nat, ghost p0: Parser, ghost first: u32) returns (start: u32)
      requires Decoding(p0, blob, first, bin, count, |blob|)
      ensures Outcome(p0, blob, OK, |blob|, start, bin[..count]) && 2 * count <= 64 + |blob|
    {
      hide Act, Credit, Feed, CellsFrom;
      start := Wrap(next - count);
      StartKept(first, count);
      CreditBounds(State(), count, |blob|);
      EndFed(Feed(p0, blob), CellsFrom(first, bin[..count]), State(), blob[|blob|..]);
    }

    /** What a call reports: it decoded `bytes` from `start` on, and either the block is done with, or what
        is left of it decodes as it would have without the interruption. */
    ghost predicate Outcome(p0: Parser, blob: seq<byte>, status: Status, used: nat, start: u32, bytes: seq<byte>)
      requires Valid() && Shaped(p0) && used <= |blob|
      reads this, line
    {
      var f := Feed(p0, blob);
      var cells := CellsFrom(start, bytes);
      match status
      case OK => f.out == cells && f.parser == State() && (f.end.Running? || f.end.Skipped?)
      case EOF => f.out == cells && f.parser == State() && f.end.Ended?
      case CKSUM_FAIL => f.out == cells && f.parser == State() && f.end.BadChecksum?
      case UNALIGNED =>
        && f == Prepend(cells, Feed(State(), blob[used..]))
        && !State().skip
        && (used > 0 || (!p0.processed && processed))
    }

    /** After `used` characters of the block: what has been decoded, and what is still to come. */
    ghost predicate Decoding(p0: Parser, blob: seq<byte>, first: u32, bin: array<byte>, count: nat, used: nat)
      requires used <= |blob|
      reads this, line, bin
    {
      && Shaped(p0) && Valid() && !load && !skip
      && count <= bin.Length && next == Wrap(first + count) && Credit(State(), count, used)
      && Feed(p0, blob) == Prepend(CellsFrom(first, bin[..count]), Feed(State(), blob[used..]))
    }

    /** Pops a postponed record, if there is one. */
    method Begin(blob: seq<byte>, bin: array<byte>) returns (ghost first: u32, count: nat)
      requires Valid() && bin != line && bin.Length == 256 && !skip
      modifies `load, `next, bin
      ensures Decoding(old(State()), blob, first, bin, count, 0)
      ensures old(processed) ==> processed
    {
      hide Act, Credit, Feed, CellsFrom;
      ghost var p0 := State();
      count := 0;
      first := next;
      NothingFed(p0, blob, bin[..0]);
      CreditStart(p0);
      if load {
        PoppedFeed(p0, blob);
        first := PopStart(p0);
        load := false;
        CopyPayload(bin, 0);
        count := line[0] as int;
        next := After(Joined(next, Address(line[..])), line[0]);
      }
    }

    /** One character of the block; a contiguous data record is appended to the output. */
    method TakeNext(blob: seq<byte>, bin: array<byte>, count: nat, used: nat, ghost p0: Parser, ghost first: u32)
      returns (v: Verdict, total: nat)
      requires used < |blob| <= 448 && bin != line && bin.Length == 256
      requires used == 0 && p0.processed ==> processed
      requires Decoding(p0, blob, first, bin, count, used) && !Feed(p0, blob).end.OutOfLine?
      modifies this, line, bin
      ensures Valid() && !v.Overrun?
      ensures v.Keep? || v.Data? ==> Decoding(p0, blob, first, bin, total, used + 1)
      ensures 2 * total <= 64 + used + 1 && (!v.Data? ==> total == count)
      ensures !v.Keep? && !v.Data? ==>
                && Wrap((if v.Rebased? then old(next) else next) - total) == first
                && Outcome(p0, blob, StatusOf(v), if v.Postponed? then used + 1 else used, first, bin[..total])
    {
      hide Act, Credit, Feed, Wrap;
      ghost var p, before, was := State(), bin[..count], next;
      StartKept(first, count);
      CreditBounds(p, count, used);
      FeedStep(p, blob[used..]);
      assert blob[used..][1..] == blob[used + 1..];
      CreditKept(p, blob[used], count, used);
      assert CellsFrom(first, before) + [] == CellsFrom(first, before);
      total := count;
      v := Consume(blob[used]);
      if v.Data? {
        CreditBounds(State(), count + line[0] as int, used + 1);
        CopyPayload(bin, count);
        DataFed(p0, blob, first, before, Payload(line[..]), was, Feed(State(), blob[used + 1..]));
        total := count + line[0] as int;
        WrapTwice(first + count, line[0] as int);
      }
    }
  }

  lemma SumMod(s: nat, x: nat)
    ensures (s % 0x100 + x) % 0x100 == (s + x) % 0x100
  {
  }

  lemma NothingFed(p: Parser, text: seq<byte>, nothing: seq<byte>)
    requires Shaped(p) && nothing == []
    ensures Feed(p, text) == Prepend(CellsFrom(p.next, nothing), Feed(p, text[0..]))
  {
    assert text[0..] == text;
    assert [] + Feed(p, text).out == Feed(p, text).out;
  }

  lemma CreditStart(p: Parser)
    requires Shaped(p)
    ensures Credit(p, 0, 0) && (p.load ==> Credit(Popped(p), p.line[0] as int, 0))
  {
  }

  lemma CreditBounds(p: Parser, count: nat, consumed: nat)
    ensures p.processed && Credit(p, count, consumed) ==> 2 * count <= 64 + consumed
    ensures Credit(p, count, consumed) ==> 2 * count <= 64 + consumed
  {
  }

  lemma PoppedFeed(p: Parser, text: seq<byte>)
    requires Shaped(p) && p.load
    ensures Feed(p, text) == Prepend(CellsFrom(PopStart(p), Payload(p.line)), Feed(Popped(p), text[0..]))
    ensures !Feed(p, text).end.OutOfLine? ==> !Feed(Popped(p), text).end.OutOfLine?
  {
    assert text[0..] == text;
  }

  /** One character of a text, by verdict. */
  lemma FeedStep(p: Parser, text: seq<byte>)
    requires Shaped(p) && !p.load && text != []
    ensures var (q, v) := Act(p, text[0]);
            Feed(p, text) ==
            match v
            case Keep => Feed(q, text[1..])
            case Data => Prepend(CellsFrom(p.next, Payload(q.line)), Feed(q, text[1..]))
            case Postponed => Feed(q, text[1..])
            case Rebased => Feed(q, text)
            case Finished => Fed([], q, Ended, text[1..])
            case Corrupt => Fed([], q, BadChecksum, text)
            case Skipping => Fed([], q, Skipped, text)
            case Overrun => Fed([], q, OutOfLine, text)
  {
  }

  lemma EndFed(f: Fed, cells: seq<Cell>, p: Parser, rest: seq<byte>)
    requires Shaped(p) && !p.load && rest == [] && f == Prepend(cells, Feed(p, rest))
    ensures f == Fed(cells, p, Running, [])
  {
    assert cells + [] == cells;
  }

  lemma DataFed(p0: Parser, blob: seq<byte>, first: u32, before: seq<byte>, more: seq<byte>, was: u32, r: Fed)
    requires Shaped(p0) && was == Wrap(first + |before|)
    requires Feed(p0, blob) == Prepend(CellsFrom(first, before), Prepend(CellsFrom(was, more), r))
    ensures Feed(p0, blob) == Prepend(CellsFrom(first, before + more), r)
  {
    CellsFromAppend(first, before, more);
    PrependTwice(CellsFrom(first, before), CellsFrom(was, more), r);
  }
}
