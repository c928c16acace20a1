/** The Intel HEX decoder, one character at a time, and what it makes of a text. */
module HexMachine {
  import opened Words
  import opened FlashModel

  const LF: byte := 10
  const CR: byte := 13
  const COLON: byte := 58
  const LINE_SIZE: nat := 37
  const MAX_COUNT: nat := 32

  const DATA_RECORD: byte := 0
  const EOF_RECORD: byte := 1
  const EXT_SEG_ADDR_RECORD: byte := 2
  const EXT_LINEAR_ADDR_RECORD: byte := 4
  const CUSTOM_METADATA_RECORD: byte := 0x0A
  const CUSTOM_DATA_RECORD: byte := 0x0D

  /** `line` overlays byte count, address, record type, data and checksum. */
  datatype Parser = Parser(
    line: seq<byte>, next: u32, low: bool, idx: nat, processed: bool, load: bool, skip: bool, version: nat)

  const RESET := Parser(Filled(LINE_SIZE, 0), 0, false, 0, false, false, false, 0)

  // ---- pieces of a line ----

  function Ctoh(c: byte): byte {
    if c / 0x10 % 2 == 1 then c % 0x10 else c % 0x10 + 9
  }

  /** Bitwise or. */
  function Or(a: nat, b: nat): nat {
    if a == 0 then b
    else if b == 0 then a
    else (if a % 2 == 1 || b % 2 == 1 then 1 else 0) + 2 * Or(a / 2, b / 2)
  }

  lemma {:induction false} OrBelow(a: nat, b: nat, n: nat)
    requires a < 2 * n && b < 2 * n && n > 0
    requires forall x: nat, y: nat :: x < n && y < n ==> Or(x, y) < n
    ensures Or(a, b) < 2 * n
  {
    if a != 0 && b != 0 {
      assert Or(a / 2, b / 2) < n;
    }
  }

  lemma OrFits(a: byte, b: nat)
    requires b < 0x10
    ensures Or(a, b) < 0x100
  {
    assert forall x: nat, y: nat :: x < 1 && y < 1 ==> Or(x, y) < 1;
    forall x: nat, y: nat | x < 2 && y < 2 ensures Or(x, y) < 2 { OrBelow(x, y, 1); }
    forall x: nat, y: nat | x < 4 && y < 4 ensures Or(x, y) < 4 { OrBelow(x, y, 2); }
    forall x: nat, y: nat | x < 8 && y < 8 ensures Or(x, y) < 8 { OrBelow(x, y, 4); }
    forall x: nat, y: nat | x < 16 && y < 16 ensures Or(x, y) < 16 { OrBelow(x, y, 8); }
    forall x: nat, y: nat | x < 32 && y < 32 ensures Or(x, y) < 32 { OrBelow(x, y, 16); }
    forall x: nat, y: nat | x < 64 && y < 64 ensures Or(x, y) < 64 { OrBelow(x, y, 32); }
    forall x: nat, y: nat | x < 128 && y < 128 ensures Or(x, y) < 128 { OrBelow(x, y, 64); }
    OrBelow(a, b, 128);
  }

  lemma OrNibble(h: nat, l: nat)
    requires l < 0x10
    ensures Or(h * 0x10, l) == h * 0x10 + l
  {
    var a := h * 16;
    assert a / 2 == h * 8 && a % 2 == 0;
    assert h * 8 / 2 == h * 4 && h * 8 % 2 == 0;
    assert h * 4 / 2 == h * 2 && h * 4 % 2 == 0;
    assert h * 2 / 2 == h && h * 2 % 2 == 0;
    assert l / 2 / 2 / 2 / 2 == 0;
    assert Or(h, l / 2 / 2 / 2 / 2) == h;
    assert Or(h * 2, l / 2 / 2 / 2) == h * 2 + l / 2 / 2 / 2;
    assert Or(h * 4, l / 2 / 2) == h * 4 + l / 2 / 2;
    assert Or(h * 8, l / 2) == h * 8 + l / 2;
  }

  function Sum(s: seq<byte>): nat {
    if s == [] then 0 else Sum(s[..|s| - 1]) + s[|s| - 1]
  }

  predicate ChecksumOk(line: seq<byte>)
    requires |line| == LINE_SIZE && line[0] as int <= MAX_COUNT
  {
    Sum(line[..line[0] as int + 5]) % 0x100 == 0
  }

  /** The address field, once its bytes have been swapped. */
  function Address(line: seq<byte>): nat
    requires |line| == LINE_SIZE
    ensures Address(line) < 0x1_0000
  {
    line[1] as int + 0x100 * line[2] as int
  }

  function Swapped(line: seq<byte>): (r: seq<byte>)
    requires |line| == LINE_SIZE
    ensures |r| == LINE_SIZE
  {
    line[1 := line[2]][2 := line[1]]
  }

  function Payload(line: seq<byte>): (r: seq<byte>)
    requires |line| == LINE_SIZE && line[0] as int <= MAX_COUNT
    ensures |r| == line[0] as int
  {
    line[4..4 + line[0] as int]
  }

  /** The upper half of `next` with the record's address as its lower half. */
  function Joined(next: u32, address: nat): u32
    requires address < 0x1_0000
  {
    next / 0x1_0000 * 0x1_0000 + address
  }

  /** The base an extended segment address record sets. */
  function SegmentBase(line: seq<byte>): u32
    requires |line| == LINE_SIZE
  {
    line[4] as int * 0x1000 + line[5] as int * 0x10
  }

  /** The base an extended linear address record sets. */
  function LinearBase(line: seq<byte>): u32
    requires |line| == LINE_SIZE
  {
    line[4] as int * 0x100_0000 + line[5] as int * 0x1_0000
  }

  /** The address `count` bytes further on. */
  function After(next: u32, count: byte): u32 {
    Wrap(next + count as int)
  }

  // ---- one character ----

  datatype Verdict =
    | Keep       // consumed; go on
    | Data       // a contiguous data record is complete: its bytes belong at the next address
    | Postponed  // a data record that is not contiguous: consumed, to be popped by the next call
    | Rebased    // an address record: not consumed, to be read again by the next call
    | Finished   // the end-of-file record
    | Corrupt    // the checksum is wrong
    | Skipping   // data for another board: the rest of the block is dropped
    | Overrun    // the source writes or reads past the line buffer

  predicate Shaped(p: Parser) {
    && |p.line| == LINE_SIZE
    && (p.load ==> p.processed && p.line[0] as int <= MAX_COUNT)
  }

  /** What the record that has just passed its checksum does. */
  function Complete(p: Parser): (r: (Parser, Verdict))
    requires |p.line| == LINE_SIZE && p.line[0] as int <= MAX_COUNT && !p.load
    ensures Shaped(r.0) && r.0.processed && r.0.line[0] == p.line[0]
    ensures r.1.Postponed? <==> r.0.load
    ensures r.1.Data? ==> Joined(p.next, Address(r.0.line)) == p.next && r.0.next == After(p.next, p.line[0])
    ensures !r.1.Data? && !r.1.Rebased? ==> r.0.next == p.next
    ensures !r.1.Skipping? ==> r.0.skip == p.skip
    ensures r.1 !in {Corrupt, Overrun}
  {
    var q := p.(processed := true, line := Swapped(p.line));
    var kind := q.line[3];
    if kind == CUSTOM_METADATA_RECORD then
      (q.(version := q.line[4] as int * 0x100 + q.line[5] as int, low := false), Keep)
    else if kind == DATA_RECORD || kind == CUSTOM_DATA_RECORD then
      if q.version != 0 then (q.(skip := true), Skipping)
      else if Joined(q.next, Address(q.line)) != q.next then (q.(load := true), Postponed)
      else (q.(next := After(q.next, q.line[0]), low := false), Data)
    else if kind == EOF_RECORD then (q, Finished)
    else if kind == EXT_SEG_ADDR_RECORD then
      (q.(next := SegmentBase(q.line)), Rebased)
    else if kind == EXT_LINEAR_ADDR_RECORD then
      (q.(next := LinearBase(q.line)), Rebased)
    else (q.(low := false), Keep)
  }

  /** The low digit of a byte; the record is complete when the count says so. */
  function LowDigit(p: Parser, c: byte): (r: (Parser, Verdict))
    requires Shaped(p) && !p.load && p.low
    ensures Shaped(r.0)
    ensures r.1.Rebased? ==> !p.processed && r.0.processed && r.0.low
    ensures r.1.Data? || r.1.Postponed? ==>
              && !p.processed && r.0.processed && r.0.line[0] as int <= MAX_COUNT && p.idx + 1 >= r.0.line[0] as int + 5
    ensures r.1.Data? ==> r.0.next == After(p.next, r.0.line[0])
    ensures r.1.Postponed? <==> r.0.load
    ensures !r.1.Data? && !r.1.Rebased? ==> r.0.next == p.next
    ensures !r.1.Skipping? ==> r.0.skip == p.skip
    ensures r.1.Keep? ==> !r.0.low && (r.0.processed || (!p.processed && r.0.idx == p.idx + 1))
  {
    if p.idx >= LINE_SIZE then (p, Overrun)
    else
      OrFits(p.line[p.idx], Ctoh(c) % 0x10);
      var q := p.(line := p.line[p.idx := Or(p.line[p.idx], Ctoh(c) % 0x10)], idx := p.idx + 1);
      if q.idx < q.line[0] as int + 5 then (q.(low := false), Keep)
      else if q.line[0] as int > MAX_COUNT then (q, Overrun)
      else if !ChecksumOk(q.line) then (q, Corrupt)
      else if q.processed then (q.(low := false), Keep)
      else Complete(q)
  }

  function Act(p: Parser, c: byte): (r: (Parser, Verdict))
    requires Shaped(p) && !p.load
    ensures Shaped(r.0)
    ensures r.1.Rebased? ==> !p.processed && r.0.processed && r.0.low
    ensures r.1.Data? || r.1.Postponed? ==> !p.processed && r.0.processed && r.0.line[0] as int <= MAX_COUNT
    ensures r.1.Data? ==> r.0.next == After(p.next, r.0.line[0])
    ensures r.1.Postponed? <==> r.0.load
    ensures !r.1.Data? && !r.1.Rebased? ==> r.0.next == p.next
    ensures !r.1.Skipping? ==> r.0.skip == p.skip
  {
    if c == CR || c == LF then (p, Keep)
    else if c == COLON then
      (p.(line := Filled(LINE_SIZE, 0), low := false, idx := 0, processed := false), Keep)
    else if p.low then LowDigit(p, c)
    else if p.idx < LINE_SIZE then
      (p.(line := p.line[p.idx := Ctoh(c) as int * 0x10 % 0x100], low := true), Keep)
    else (p.(low := true), Keep)
  }

  /** The postponed record, taken up: where its bytes go, and the parser after it. */
  function PopStart(p: Parser): u32
    requires Shaped(p)
  {
    Joined(p.next, Address(p.line))
  }

  function Popped(p: Parser): (q: Parser)
    requires Shaped(p) && p.load
    ensures Shaped(q) && !q.load && q.processed
  {
    p.(load := false, next := After(PopStart(p), p.line[0]))
  }

  // ---- a whole text ----

  /** Bytes at consecutive addresses modulo 2^32. */
  function CellsFrom(start: u32, bytes: seq<byte>): (r: seq<Cell>)
    ensures |r| == |bytes| && forall i :: 0 <= i < |r| ==> r[i] == Cell(Wrap(start + i), bytes[i])
  {
    seq(|bytes|, i requires 0 <= i < |bytes| => Cell(Wrap(start + i), bytes[i]))
  }

  lemma WrapTwice(a: int, b: int)
    ensures Wrap(Wrap(a) + b) == Wrap(a + b)
  {
    var n := 0x1_0000_0000;
    assert a == n * (a / n) + a % n;
    var x := a % n + b;
    assert a + b == n * (a / n) + x;
    assert x == n * (x / n) + x % n;
    assert a + b == n * (a / n + x / n) + x % n;
  }

  lemma CellsFromAppend(start: u32, a: seq<byte>, b: seq<byte>)
    ensures CellsFrom(start, a + b) == CellsFrom(start, a) + CellsFrom(Wrap(start + |a|), b)
  {
    hide Wrap;
    var l, r := CellsFrom(start, a + b), CellsFrom(start, a) + CellsFrom(Wrap(start + |a|), b);
    forall i | 0 <= i < |l| ensures l[i] == r[i] {
      if i >= |a| { WrapTwice(start + |a|, i - |a|); }
    }
  }

  datatype End = Running | Ended | BadChecksum | Skipped | OutOfLine

  /** The bytes decoded from a text, the parser after it, how it ended, and the text left unread. */
  datatype Fed = Fed(out: seq<Cell>, parser: Parser, end: End, rest: seq<byte>)

  function Prepend(cells: seq<Cell>, r: Fed): Fed {
    r.(out := cells + r.out)
  }

  /** Feeds a text to the machine with nothing cut: a postponed record is popped at once, and the last
      digit of an address record is read again at once. */
  function Feed(p: Parser, text: seq<byte>): (r: Fed)
    requires Shaped(p)
    ensures Shaped(r.parser) && !r.parser.load && (r.end.Running? ==> r.rest == [])
    ensures !r.end.Skipped? ==> r.parser.skip == p.skip
    decreases |text|, !p.processed, p.load
  {
    if p.load then Prepend(CellsFrom(PopStart(p), Payload(p.line)), Feed(Popped(p), text))
    else if text == [] then Fed([], p, Running, [])
    else
      var (q, v) := Act(p, text[0]);
      match v
      case Keep => Feed(q, text[1..])
      case Data => Prepend(CellsFrom(p.next, Payload(q.line)), Feed(q, text[1..]))
      case Postponed => Feed(q, text[1..])
      case Rebased => Feed(q, text)
      case Finished => Fed([], q, Ended, text[1..])
      case Corrupt => Fed([], q, BadChecksum, text)
      case Skipping => Fed([], q, Skipped, text)
      case Overrun => Fed([], q, OutOfLine, text)
  }

  lemma PrependTwice(a: seq<Cell>, b: seq<Cell>, r: Fed)
    ensures Prepend(a, Prepend(b, r)) == Prepend(a + b, r)
  {
    assert a + (b + r.out) == a + b + r.out;
  }

  /** What feeding `b` adds after a text that ended as `r`. */
  function Resume(r: Fed, b: seq<byte>): Fed
    requires Shaped(r.parser)
  {
    if r.end.Running? then Prepend(r.out, Feed(r.parser, b)) else r.(rest := r.rest + b)
  }

  /** Feeding a text in two pieces, cut anywhere, is feeding it at once. */
  lemma {:induction false} FeedAppend(p: Parser, a: seq<byte>, b: seq<byte>)
    requires Shaped(p)
    ensures Feed(p, a + b) == Resume(Feed(p, a), b)
    decreases |a|, !p.processed, p.load
  {
    if p.load {
      FeedAppend(Popped(p), a, b);
      ResumePrepend(CellsFrom(PopStart(p), Payload(p.line)), Feed(Popped(p), a), b);
    } else if a == [] {
      assert a + b == b;
      assert Feed(p, a) == Fed([], p, Running, []);
    } else {
      assert (a + b)[0] == a[0] && (a + b)[1..] == a[1..] + b;
      var (q, v) := Act(p, a[0]);
      match v
      case Keep => FeedAppend(q, a[1..], b);
      case Data =>
        FeedAppend(q, a[1..], b);
        ResumePrepend(CellsFrom(p.next, Payload(q.line)), Feed(q, a[1..]), b);
      case Postponed => FeedAppend(q, a[1..], b);
      case Rebased => FeedAppend(q, a, b);
      case _ =>
    }
  }

  lemma ResumePrepend(cells: seq<Cell>, r: Fed, b: seq<byte>)
    requires Shaped(r.parser)
    ensures Resume(Prepend(cells, r), b) == Prepend(cells, Resume(r, b))
  {
    if r.end.Running? { PrependTwice(cells, r.out, Feed(r.parser, b)); }
  }

  // ---- a text cut into chunks ----

  function Flat(chunks: seq<seq<byte>>): seq<byte> {
    if chunks == [] then [] else chunks[0] + Flat(chunks[1..])
  }

  /** What a call makes of a block: while another board's data is skipped, a block that does not begin a record
      is dropped. */
  function FeedBlock(p: Parser, block: seq<byte>): (r: Fed)
    requires Shaped(p)
    ensures Shaped(r.parser) && (!p.load ==> !r.parser.load)
    ensures !p.skip ==> r == Feed(p, block)
    ensures !p.skip && !r.end.Skipped? ==> !r.parser.skip
  {
    if p.skip && (block == [] || block[0] != COLON) then Fed([], p, Running, [])
    else Feed(p.(skip := false), block)
  }

  /** The bytes decoded when each chunk is decoded by a call of its own; a call that meets the
      end-of-file record, or another board's data, drops the rest of its chunk. */
  function FeedChunks(p: Parser, chunks: seq<seq<byte>>): (r: Fed)
    requires Shaped(p)
    ensures Shaped(r.parser)
    decreases |chunks|
  {
    if chunks == [] then Fed([], p, Running, [])
    else
      var r := FeedBlock(p, chunks[0]);
      if r.end.Running? || r.end.Ended? || r.end.Skipped? then Prepend(r.out, FeedChunks(r.parser, chunks[1..])) else r
  }

  predicate LineEnds(text: seq<byte>) {
    forall i :: 0 <= i < |text| ==> text[i] == CR || text[i] == LF
  }

  /** The text decodes to its end, or to an end-of-file record with nothing but line ends behind it. */
  predicate DecodesWhole(r: Fed) {
    r.end.Running? || (r.end.Ended? && LineEnds(r.rest) && !r.parser.load)
  }

  lemma {:induction false} FeedLineEnds(p: Parser, text: seq<byte>)
    requires Shaped(p) && !p.load && LineEnds(text)
    ensures Feed(p, text) == Fed([], p, Running, [])
  {
    if text != [] { FeedLineEnds(p, text[1..]); }
  }

  lemma {:induction false} ChunkedLineEnds(p: Parser, chunks: seq<seq<byte>>)
    requires Shaped(p) && !p.load && !p.skip && LineEnds(Flat(chunks))
    ensures FeedChunks(p, chunks) == Fed([], p, Running, [])
    decreases |chunks|
  {
    if chunks != [] {
      var t := Flat(chunks);
      assert forall i :: 0 <= i < |chunks[0]| ==> t[i] == chunks[0][i];
      var u := Flat(chunks[1..]);
      assert forall i :: 0 <= i < |u| ==> t[|chunks[0]| + i] == u[i];
      FeedLineEnds(p, chunks[0]);
      ChunkedLineEnds(p, chunks[1..]);
    }
  }

  /** The decoded bytes and their addresses do not depend on how the text is cut into chunks: cuts
      inside a record, behind a postponed record or before the last digit of an address record included. */
  lemma {:induction false} ChunkIndependent(p: Parser, chunks: seq<seq<byte>>)
    requires Shaped(p) && DecodesWhole(Feed(p, Flat(chunks)))
    requires !p.load && !p.skip
    ensures FeedChunks(p, chunks).out == Feed(p, Flat(chunks)).out
    ensures FeedChunks(p, chunks).end.Running?
    decreases |chunks|
  {
    if chunks != [] {
      var a, b := chunks[0], Flat(chunks[1..]);
      FeedAppend(p, a, b);
      var r := Feed(p, a);
      if r.end.Running? {
        ChunkIndependent(r.parser, chunks[1..]);
      } else {
        assert forall i :: 0 <= i < |b| ==> (r.rest + b)[|r.rest| + i] == b[i];
        ChunkedLineEnds(r.parser, chunks[1..]);
      }
    }
  }

  /** Of any text: cutting it never loses or changes what the uncut text decodes to. It adds to this only behind an
      end-of-file record, or another board's data. */
  lemma {:induction false} CutsOnlyAdd(p: Parser, chunks: seq<seq<byte>>)
    requires Shaped(p) && !p.load && !p.skip
    ensures Feed(p, Flat(chunks)).out <= FeedChunks(p, chunks).out
    ensures var r := Feed(p, Flat(chunks));
            !r.end.Ended? && !r.end.Skipped? ==>
              FeedChunks(p, chunks).out == r.out && FeedChunks(p, chunks).end == r.end
    decreases |chunks|
  {
    if chunks != [] {
      FeedAppend(p, chunks[0], Flat(chunks[1..]));
      var r := Feed(p, chunks[0]);
      if r.end.Running? { CutsOnlyAdd(r.parser, chunks[1..]); }
    }
  }
}
