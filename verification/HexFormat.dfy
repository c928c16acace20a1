/** The Intel HEX format: records, the text that spells them, the addresses the format assigns, and what
    the decoder makes of such a text. Sections refer to the Intel Hexadecimal Object File Format
    Specification, Revision A. */
module HexFormat {
  import opened Words
  import opened FlashModel
  import opened HexMachine

  datatype Record =
    | DataAt(address: nat, bytes: seq<byte>)   // section 5
    | EndOfFile                                // section 8
    | Segment(base: nat)                       // section 4: a paragraph number
    | StartSegment(info: seq<byte>)
    | Linear(upper: nat)                       // section 3: the upper half of the address
    | StartLinear(info: seq<byte>)

  predicate ValidRecord(r: Record) {
    match r
    case DataAt(a, b) => a < 0x1_0000 && |b| <= 32
    case EndOfFile => true
    case Segment(b) => b < 0x1_0000
    case Linear(u) => u < 0x1_0000
    case StartSegment(i) => |i| == 4
    case StartLinear(i) => |i| == 4
  }

  function Pair(x: nat): (s: seq<byte>)
    requires x < 0x1_0000
    ensures |s| == 2
  {
    [x / 0x100, x % 0x100]
  }

  function Kind(r: Record): byte {
    match r
    case DataAt(_, _) => 0
    case EndOfFile => 1
    case Segment(_) => 2
    case StartSegment(_) => 3
    case Linear(_) => 4
    case StartLinear(_) => 5
  }

  function Info(r: Record): (s: seq<byte>)
    requires ValidRecord(r)
    ensures |s| <= MAX_COUNT
  {
    match r
    case DataAt(_, b) => b
    case EndOfFile => []
    case Segment(b) => Pair(b)
    case Linear(u) => Pair(u)
    case StartSegment(i) => i
    case StartLinear(i) => i
  }

  function Checksum(s: seq<byte>): byte {
    (0x100 - Sum(s) % 0x100) % 0x100
  }

  /** Section 2: byte count, load offset, record type, info, and the checksum that makes the sum zero. */
  function Body(r: Record): seq<byte>
    requires ValidRecord(r)
  {
    [|Info(r)|] + Pair(if r.DataAt? then r.address else 0) + [Kind(r)] + Info(r)
  }

  function RecordBytes(r: Record): (s: seq<byte>)
    requires ValidRecord(r)
    ensures |s| == |Info(r)| + 5 && s[0] as int == |Info(r)|
    ensures s[..|s| - 1] == Body(r) && s[|s| - 1] == Checksum(Body(r))
  {
    Body(r) + [Checksum(Body(r))]
  }

  // ---- text ----

  /** `c` is the hexadecimal digit of `v`, in either case. */
  predicate Digit(c: byte, v: nat) {
    if v < 10 then c as int == 0x30 + v else v < 16 && (c as int == 0x37 + v || c as int == 0x57 + v)
  }

  predicate Spells(digits: seq<byte>, bytes: seq<byte>) {
    && |digits| == 2 * |bytes|
    && forall i :: 0 <= i < |bytes| ==>
         Digit(digits[2 * i], bytes[i] / 0x10) && Digit(digits[2 * i + 1], bytes[i] % 0x10)
  }

  /** A line of a HEX file: the record mark, the record in hexadecimal, and any line ends. */
  datatype Line = Line(record: Record, digits: seq<byte>, eol: seq<byte>)

  predicate ValidLine(l: Line) {
    ValidRecord(l.record) && Spells(l.digits, RecordBytes(l.record)) && LineEnds(l.eol)
  }

  function LineText(l: Line): seq<byte> {
    [COLON] + l.digits + l.eol
  }

  function Text(lines: seq<Line>): seq<byte> {
    if lines == [] then [] else LineText(lines[0]) + Text(lines[1..])
  }

  function Records(lines: seq<Line>): seq<Record> {
    if lines == [] then [] else [lines[0].record] + Records(lines[1..])
  }

  predicate ValidLines(lines: seq<Line>) {
    forall i :: 0 <= i < |lines| ==> ValidLine(lines[i])
  }

  predicate ValidRecords(rs: seq<Record>) {
    forall i :: 0 <= i < |rs| ==> ValidRecord(rs[i])
  }

  function UpperDigit(v: nat): byte
    requires v < 16
  {
    if v < 10 then 0x30 + v else 0x37 + v
  }

  function Hex(bytes: seq<byte>): seq<byte> {
    if bytes == [] then []
    else [UpperDigit(bytes[0] / 0x10), UpperDigit(bytes[0] % 0x10)] + Hex(bytes[1..])
  }

  /** Every record has a text: upper-case digits and a CR LF, for one. */
  lemma {:induction false} HexSpells(bytes: seq<byte>)
    ensures Spells(Hex(bytes), bytes)
  {
    if bytes != [] {
      HexSpells(bytes[1..]);
      var h, t := Hex(bytes), Hex(bytes[1..]);
      forall i | 0 <= i < |bytes|
        ensures Digit(h[2 * i], bytes[i] / 0x10) && Digit(h[2 * i + 1], bytes[i] % 0x10)
      {
        if i > 0 {
          assert h[2 * i] == t[2 * (i - 1)] && h[2 * i + 1] == t[2 * (i - 1) + 1];
        }
      }
    }
  }

  lemma EveryRecordHasText(r: Record)
    requires ValidRecord(r)
    ensures ValidLine(Line(r, Hex(RecordBytes(r)), [CR, LF]))
  {
    HexSpells(RecordBytes(r));
  }

  // ---- the machine on one record ----

  lemma DigitDecodes(c: byte, v: nat)
    requires Digit(c, v)
    ensures Ctoh(c) as int % 0x10 == v && c != CR && c != LF && c != COLON
  {
  }

  /** Between records: no record postponed, nothing skipped, no other board's data. */
  predicate Between(p: Parser) {
    Shaped(p) && !p.load && !p.skip && p.version == 0
  }

  /** The parser after the first `j` bytes of a record. */
  function Reading(next: u32, bytes: seq<byte>, j: nat, version: nat := 0): (p: Parser)
    requires j <= |bytes| <= LINE_SIZE
    ensures Shaped(p)
  {
    Parser(bytes[..j] + Filled(LINE_SIZE - j, 0), next, false, j, false, false, false, version)
  }

  /** The parser between the digits of byte `j`. */
  function Halfway(next: u32, bytes: seq<byte>, j: nat, version: nat := 0): (p: Parser)
    requires j < |bytes| <= LINE_SIZE
    ensures Shaped(p)
  {
    var p := Reading(next, bytes, j, version);
    p.(line := p.line[j := bytes[j] / 0x10 * 0x10], low := true)
  }

  lemma HighDigitOf(next: u32, bytes: seq<byte>, j: nat, c: byte, version: nat := 0)
    requires j < |bytes| <= LINE_SIZE && Digit(c, bytes[j] as int / 0x10)
    ensures Act(Reading(next, bytes, j, version), c) == (Halfway(next, bytes, j, version), Keep)
  {
    DigitDecodes(c, bytes[j] as int / 0x10);
    var v := Ctoh(c) as int;
    assert v * 0x10 % 0x100 == v % 0x10 * 0x10;
  }

  /** The line and index once byte `j` is whole. */
  lemma LowDigitOf(next: u32, bytes: seq<byte>, j: nat, c: byte, version: nat := 0)
    requires j < |bytes| <= LINE_SIZE && Digit(c, bytes[j] as int % 0x10)
    ensures Or(Halfway(next, bytes, j, version).line[j], Ctoh(c) as int % 0x10) == bytes[j] as int
    ensures Halfway(next, bytes, j, version).line[j := bytes[j]] == Reading(next, bytes, j + 1, version).line
  {
    DigitDecodes(c, bytes[j] as int % 0x10);
    OrNibble(bytes[j] as int / 0x10, bytes[j] as int % 0x10);
  }

  lemma EarlyByte(next: u32, bytes: seq<byte>, j: nat, c: byte, version: nat := 0)
    requires 5 <= |bytes| <= LINE_SIZE && bytes[0] as int + 5 == |bytes| && j + 1 < |bytes|
    requires Digit(c, bytes[j] as int % 0x10)
    ensures Act(Halfway(next, bytes, j, version), c) == (Reading(next, bytes, j + 1, version), Keep)
  {
    DigitDecodes(c, bytes[j] as int % 0x10);
    LowDigitOf(next, bytes, j, c, version);
    assert Reading(next, bytes, j + 1, version).line[0] == bytes[0];
  }

  lemma LastByte(next: u32, bytes: seq<byte>, c: byte, version: nat := 0)
    requires 5 <= |bytes| <= LINE_SIZE && bytes[0] as int + 5 == |bytes|
    requires Digit(c, bytes[|bytes| - 1] as int % 0x10) && Sum(bytes) % 0x100 == 0
    ensures Act(Halfway(next, bytes, |bytes| - 1, version), c) ==
            Complete(Reading(next, bytes, |bytes|, version).(low := true))
  {
    var j := |bytes| - 1;
    DigitDecodes(c, bytes[j] as int % 0x10);
    LowDigitOf(next, bytes, j, c, version);
    var line := Reading(next, bytes, j + 1, version).line;
    assert line[0] == bytes[0];
    assert line[..|bytes|] == bytes;
  }

  lemma FeedKept(p: Parser, text: seq<byte>)
    requires Shaped(p) && !p.load && text != [] && Act(p, text[0]).1.Keep?
    ensures Feed(p, text) == Feed(Act(p, text[0]).0, text[1..])
  {
  }

  /** All digits but the last one bring the parser to the middle of the last byte. */
  lemma {:induction false} FeedDigits(next: u32, bytes: seq<byte>, digits: seq<byte>, j: nat, tail: seq<byte>,
                                      version: nat := 0)
    requires 5 <= |bytes| <= LINE_SIZE && bytes[0] as int + 5 == |bytes| && Spells(digits, bytes) && j < |bytes|
    ensures Feed(Reading(next, bytes, j, version), digits[2 * j..] + tail) ==
            Feed(Halfway(next, bytes, |bytes| - 1, version), [digits[|digits| - 1]] + tail)
    decreases |bytes| - j
  {
    hide Feed, Act, Digit;
    var t := digits[2 * j..] + tail;
    assert Digit(digits[2 * j], bytes[j] / 0x10) && Digit(digits[2 * j + 1], bytes[j] % 0x10);
    HighDigitOf(next, bytes, j, digits[2 * j], version);
    assert t[0] == digits[2 * j];
    FeedKept(Reading(next, bytes, j, version), t);
    var u := t[1..];
    if j == |bytes| - 1 {
      assert u == [digits[|digits| - 1]] + tail;
    } else {
      EarlyByte(next, bytes, j, digits[2 * j + 1], version);
      assert u[0] == digits[2 * j + 1];
      FeedKept(Halfway(next, bytes, j, version), u);
      assert u[1..] == digits[2 * (j + 1)..] + tail;
      FeedDigits(next, bytes, digits, j + 1, tail, version);
    }
  }

  lemma SkipLineEnds(p: Parser, eol: seq<byte>, rest: seq<byte>)
    requires Shaped(p) && !p.load && LineEnds(eol)
    ensures Feed(p, eol + rest) == Feed(p, rest)
  {
    hide Feed, Act;
    FeedAppend(p, eol, rest);
    FeedLineEnds(p, eol);
    assert [] + Feed(p, rest).out == Feed(p, rest).out;
  }

  lemma {:induction false} SumSwapped(line: seq<byte>, m: nat)
    requires |line| == LINE_SIZE && 3 <= m <= LINE_SIZE
    ensures Sum(Swapped(line)[..m]) == Sum(line[..m])
  {
    var w := Swapped(line);
    assert w[..m][..m - 1] == w[..m - 1] && line[..m][..m - 1] == line[..m - 1];
    if m > 3 {
      SumSwapped(line, m - 1);
    } else {
      assert w[..2][..1] == w[..1] && line[..2][..1] == line[..1];
      assert w[..1][..0] == [] && line[..1][..0] == [];
      assert Sum(w[..1]) == w[0] as int && Sum(line[..1]) == line[0] as int;
    }
  }

  lemma RecordSums(r: Record)
    requires ValidRecord(r)
    ensures Sum(RecordBytes(r)) % 0x100 == 0
  {
    hide Body, Sum;
    var b, x := Body(r), Checksum(Body(r));
    SumLast(b, x);
    ComplementSum(Sum(b));
  }

  lemma SumLast(s: seq<byte>, x: byte)
    ensures Sum(s + [x]) == Sum(s) + x as int
  {
    assert (s + [x])[..|s|] == s;
  }

  lemma ComplementSum(s: nat)
    ensures (s + (0x100 - s % 0x100) % 0x100) % 0x100 == 0
  {
  }

  lemma InfoIn(r: Record)
    requires ValidRecord(r)
    ensures RecordBytes(r)[4..4 + |Info(r)|] == Info(r)
    ensures RecordBytes(r)[1..3] == Pair(if r.DataAt? then r.address else 0) && RecordBytes(r)[3] == Kind(r)
  {
    var a := [|Info(r)| as byte] + Pair(if r.DataAt? then r.address else 0) + [Kind(r)];
    assert RecordBytes(r) == a + Info(r) + [Checksum(Body(r))];
  }

  /** The fields of the line once a record is complete. */
  lemma Fields(next: u32, r: Record)
    requires ValidRecord(r)
    ensures var line := Swapped(Reading(next, RecordBytes(r), |RecordBytes(r)|).line);
            && line[0] as int == |Info(r)| && line[3] == Kind(r)
            && Payload(line) == Info(r)
            && Address(line) == (if r.DataAt? then r.address else 0)
            && ChecksumOk(line)
  {
    hide Body, Info, Kind, Sum;
    var bytes := RecordBytes(r);
    var line := Reading(next, bytes, |bytes|).line;
    InfoIn(r);
    assert Swapped(line)[4..4 + |Info(r)|] == bytes[4..4 + |Info(r)|];
    assert bytes[1] == bytes[1..3][0] && bytes[2] == bytes[1..3][1];
    RecordSums(r);
    assert line[..|bytes|] == bytes;
    SumSwapped(line, |bytes|);
  }

  /** The last digit of an address record, read a second time, changes nothing that matters. */
  lemma ReadAgain(q: Parser, c: byte)
    requires Shaped(q) && !q.load && !q.skip && q.version == 0 && q.low && q.processed
    requires q.line[0] as int < MAX_COUNT && q.idx == q.line[0] as int + 5 && ChecksumOk(q.line)
    requires c != CR && c != LF && c != COLON
    ensures Act(q, c).1.Keep? && Between(Act(q, c).0) && Act(q, c).0.next == q.next
  {
    OrFits(q.line[q.idx], Ctoh(c) as int % 0x10);
    var line := q.line[q.idx := Or(q.line[q.idx], Ctoh(c) as int % 0x10)];
    assert line[..q.idx] == q.line[..q.idx];
  }

  lemma FeedToLastDigit(p: Parser, l: Line, rest: seq<byte>)
    requires Between(p) && ValidLine(l)
    ensures var bytes := RecordBytes(l.record);
            Feed(p, LineText(l) + rest) ==
            Feed(Halfway(p.next, bytes, |bytes| - 1), [l.digits[|l.digits| - 1]] + (l.eol + rest))
  {
    hide Feed, Halfway, Reading, RecordBytes, Spells;
    assert LineText(l) + rest == [COLON] + l.digits + (l.eol + rest);
    FeedMarked(p, RecordBytes(l.record), l.digits, l.eol + rest);
  }

  /** A record mark and all digits of a record but the last one. */
  lemma FeedMarked(p: Parser, bytes: seq<byte>, digits: seq<byte>, tail: seq<byte>)
    requires Shaped(p) && !p.load && !p.skip
    requires 5 <= |bytes| <= LINE_SIZE && bytes[0] as int + 5 == |bytes| && Spells(digits, bytes)
    ensures Feed(p, [COLON] + digits + tail) ==
            Feed(Halfway(p.next, bytes, |bytes| - 1, p.version), [digits[|digits| - 1]] + tail)
  {
    hide Feed, LowDigit;
    var text := [COLON] + digits + tail;
    assert text[0] == COLON && text[1..] == digits[2 * 0..] + tail;
    assert bytes[..0] + Filled(LINE_SIZE, 0) == Filled(LINE_SIZE, 0);
    assert Act(p, COLON) == (Reading(p.next, bytes, 0, p.version), Keep);
    FeedKept(p, text);
    FeedDigits(p.next, bytes, digits, 0, tail, p.version);
  }

  /** The parser when the checksum of the record has been found right, and the verdict. */
  function Completed(next: u32, r: Record): (c: (Parser, Verdict))
    requires ValidRecord(r)
    ensures Shaped(c.0) && (c.1.Postponed? <==> c.0.load)
  {
    InfoIn(r);
    Complete(Reading(next, RecordBytes(r), |RecordBytes(r)|).(low := true))
  }

  lemma CompletedFields(next: u32, r: Record)
    requires ValidRecord(r)
    ensures var (c, v) := Completed(next, r);
            && c.line[0] as int == |Info(r)| && Payload(c.line) == Info(r)
            && (r.DataAt? ==> Address(c.line) == r.address)
            && ChecksumOk(c.line) && c.idx == |Info(r)| + 5
            && c.processed && !c.skip && c.version == 0
    ensures var (c, v) := Completed(next, r);
            match r
            case DataAt(a, b) =>
              if Joined(next, a) == next then v.Data? && Between(c) && c.next == After(next, |b|)
              else v.Postponed? && c.next == next
            case EndOfFile => v.Finished? && Between(c) && c.next == next
            case Segment(b) => v.Rebased? && Between(c) && c.low && c.next == b * 0x10
            case Linear(u) => v.Rebased? && Between(c) && c.low && c.next == u * 0x1_0000
            case _ => v.Keep? && Between(c) && c.next == next
  {
    Fields(next, r);
    InfoIn(r);
    var (c, v) := Completed(next, r);
    assert Payload(c.line) == Info(r);
    assert |Info(r)| == 2 ==> c.line[4] == Info(r)[0] && c.line[5] == Info(r)[1];
  }

  lemma FeedCompleted(p: Parser, l: Line, rest: seq<byte>)
    requires Between(p) && ValidLine(l)
    ensures var (c, v) := Completed(p.next, l.record);
            var f := Feed(p, LineText(l) + rest);
            match v
            case Keep => f == Feed(c, l.eol + rest)
            case Data =>
              && c.line[0] as int <= MAX_COUNT
              && f == Prepend(CellsFrom(p.next, Payload(c.line)), Feed(c, l.eol + rest))
            case Postponed => f == Feed(c, l.eol + rest)
            case Rebased => f == Feed(c, [l.digits[|l.digits| - 1]] + (l.eol + rest))
            case Finished => f == Fed([], c, Ended, l.eol + rest)
            case _ => true
  {
    hide LowDigit, Complete;
    var bytes, tail := RecordBytes(l.record), l.eol + rest;
    var d := l.digits[|l.digits| - 1];
    FeedToLastDigit(p, l, rest);
    RecordSums(l.record);
    LastByte(p.next, bytes, d);
    DigitDecodes(d, bytes[|bytes| - 1] as int % 0x10);
    assert ([d] + tail)[1..] == tail;
  }

  /** What a line does to the decoder, wherever it stands. */
  lemma FeedLine(p: Parser, l: Line, rest: seq<byte>) returns (q: Parser)
    requires Between(p) && ValidLine(l)
    ensures Between(q)
    ensures match l.record
            case DataAt(a, b) =>
              && Feed(p, LineText(l) + rest) == Prepend(CellsFrom(Joined(p.next, a), b), Feed(q, rest))
              && q.next == After(Joined(p.next, a), |b|)
            case EndOfFile => Feed(p, LineText(l) + rest) == Fed([], q, Ended, l.eol + rest) && q.next == p.next
            case Segment(b) => Feed(p, LineText(l) + rest) == Feed(q, rest) && q.next == b * 0x10
            case Linear(u) => Feed(p, LineText(l) + rest) == Feed(q, rest) && q.next == u * 0x1_0000
            case _ => Feed(p, LineText(l) + rest) == Feed(q, rest) && q.next == p.next
  {
    hide Feed, Act, Complete;
    var bytes, tail := RecordBytes(l.record), l.eol + rest;
    var d := l.digits[|l.digits| - 1];
    var (c, v) := Completed(p.next, l.record);
    FeedCompleted(p, l, rest);
    CompletedFields(p.next, l.record);
    match l.record {
      case DataAt(a, b) =>
        if v.Data? {
          q := c;
        } else {
          q := Popped(c);
          FeedPopped(c, tail);
        }
        SkipLineEnds(q, l.eol, rest);
      case EndOfFile =>
        q := c;
      case Segment(b) =>
        q := FeedAgain(c, d, tail);
        SkipLineEnds(q, l.eol, rest);
      case Linear(u) =>
        q := FeedAgain(c, d, tail);
        SkipLineEnds(q, l.eol, rest);
      case _ =>
        q := c;
        SkipLineEnds(q, l.eol, rest);
    }
  }

  lemma FeedPopped(p: Parser, text: seq<byte>)
    requires Shaped(p) && p.load
    ensures Feed(p, text) == Prepend(CellsFrom(PopStart(p), Payload(p.line)), Feed(Popped(p), text))
  {
  }

  /** Reading the last digit of an address record again. */
  lemma FeedAgain(c: Parser, d: byte, tail: seq<byte>) returns (q: Parser)
    requires Between(c) && c.low && c.processed
    requires c.line[0] as int < MAX_COUNT && c.idx == c.line[0] as int + 5 && ChecksumOk(c.line)
    requires exists v :: Digit(d, v)
    ensures Between(q) && q.next == c.next && Feed(c, [d] + tail) == Feed(q, tail)
  {
    var v :| Digit(d, v);
    DigitDecodes(d, v);
    ReadAgain(c, d);
    q := Act(c, d).0;
    assert ([d] + tail)[0] == d && ([d] + tail)[1..] == tail;
    FeedKept(c, [d] + tail);
  }

  // ---- a whole file ----

  /** The bytes the decoder makes of a list of records, starting with `next` as the next address. */
  function Decode(next: u32, rs: seq<Record>): seq<Cell>
    requires ValidRecords(rs)
    decreases |rs|
  {
    if rs == [] then []
    else match rs[0]
      case DataAt(a, b) => CellsFrom(Joined(next, a), b) + Decode(After(Joined(next, a), |b|), rs[1..])
      case EndOfFile => []
      case Segment(b) => Decode(b * 0x10, rs[1..])
      case Linear(u) => Decode(u * 0x1_0000, rs[1..])
      case _ => Decode(next, rs[1..])
  }

  lemma RecordsValid(lines: seq<Line>)
    requires ValidLines(lines)
    ensures |Records(lines)| == |lines| && ValidRecords(Records(lines))
    ensures forall i :: 0 <= i < |lines| ==> Records(lines)[i] == lines[i].record
  {
    if lines != [] { RecordsValid(lines[1..]); }
  }

  /** End-of-file comes last, if at all. */
  predicate EndsOnce(rs: seq<Record>) {
    forall i :: 0 <= i < |rs| - 1 ==> !rs[i].EndOfFile?
  }

  /** Decoding any text of a list of records gives the decoder's bytes for those records: whatever the
      case of the digits and the line ends. */
  lemma {:induction false} TextDecodes(p: Parser, lines: seq<Line>)
    requires Between(p) && ValidLines(lines)
    ensures ValidRecords(Records(lines))
    ensures Feed(p, Text(lines)).out == Decode(p.next, Records(lines))
    ensures EndsOnce(Records(lines)) ==> DecodesWhole(Feed(p, Text(lines)))
    decreases |lines|
  {
    hide CellsFrom, Act, Spells, LineText, Shaped;
    RecordsValid(lines);
    if lines != [] {
      var l, rest := lines[0], Text(lines[1..]);
      var q := FeedLine(p, l, rest);
      assert Records(lines)[1..] == Records(lines[1..]);
      if !l.record.EndOfFile? {
        TextDecodes(q, lines[1..]);
        RecordsValid(lines[1..]);
      } else if EndsOnce(Records(lines)) {
        assert |lines| == 1;
        assert l.eol + rest == l.eol;
      }
    } else {
      assert Text(lines) == [];
    }
  }

  // ---- where cutting matters ----

  /** Records behind an end-of-file record: nothing is made of them, unless a cut falls between. Then they are decoded
      as if it were not there. */
  lemma CutBehindEnd(p: Parser, l: Line, more: seq<Line>)
    requires Between(p) && ValidLine(l) && l.record.EndOfFile? && ValidLines(more)
    ensures FeedChunks(p, [LineText(l) + Text(more)]).out == []
    ensures ValidRecords(Records(more)) && FeedChunks(p, [LineText(l), Text(more)]).out == Decode(p.next, Records(more))
  {
    hide Feed, LineText, Decode;
    var _ := FeedLine(p, l, Text(more));
    assert LineText(l) + [] == LineText(l);
    var q := FeedLine(p, l, []);
    TextDecodes(q, more);
    OneChunk(p, LineText(l) + Text(more));
    TwoChunks(p, LineText(l), Text(more));
  }

  lemma OneChunk(p: Parser, a: seq<byte>)
    requires Shaped(p) && !p.skip
    ensures FeedChunks(p, [a]).out == Feed(p, a).out
  {
    LastChunk(p, a);
  }

  lemma LastChunk(p: Parser, a: seq<byte>)
    requires Shaped(p)
    ensures FeedChunks(p, [a]).out == FeedBlock(p, a).out
  {
    hide Feed, FeedBlock;
    assert [a][1..] == [];
  }

  lemma TwoChunks(p: Parser, a: seq<byte>, b: seq<byte>)
    requires Shaped(p) && !p.skip && (Feed(p, a).end.Ended? || Feed(p, a).end.Skipped?)
    ensures FeedChunks(p, [a, b]).out == Feed(p, a).out + FeedBlock(Feed(p, a).parser, b).out
  {
    hide Feed, FeedBlock;
    var q := Feed(p, a).parser;
    assert [a, b][1..] == [b] && [b][1..] == [];
    LastChunk(q, b);
  }

  /** `bytes` are as many as the first of them says. */
  predicate Announced(bytes: seq<byte>) {
    5 <= |bytes| <= 37 && bytes[0] as int + 5 == |bytes|
  }

  /** The bytes of a data record, of either of the two types. */
  predicate DataBytes(bytes: seq<byte>) {
    Announced(bytes) && Sum(bytes) % 0x100 == 0 && bytes[3] in {DATA_RECORD, CUSTOM_DATA_RECORD}
  }

  /** The bytes of a record that announces a board; this one is for no board in particular if `version` is 0. */
  predicate BoardBytes(bytes: seq<byte>, version: nat) {
    && Announced(bytes) && |bytes| >= 7 && Sum(bytes) % 0x100 == 0
    && bytes[3] == CUSTOM_METADATA_RECORD && version == bytes[4] as int * 0x100 + bytes[5] as int
  }

  predicate Marked(block: seq<byte>) {
    block != [] && block[0] == COLON
  }

  /** While another board's data is skipped, blocks that do not begin with a record mark are dropped. */
  lemma {:induction false} UnmarkedDropped(p: Parser, blocks: seq<seq<byte>>, rest: seq<seq<byte>>)
    requires Shaped(p) && p.skip && forall i :: 0 <= i < |blocks| ==> !Marked(blocks[i])
    ensures FeedChunks(p, blocks + rest) == FeedChunks(p, rest)
    decreases |blocks|
  {
    if blocks == [] {
      assert blocks + rest == rest;
    } else {
      assert (blocks + rest)[0] == blocks[0] && (blocks + rest)[1..] == blocks[1..] + rest;
      var r := FeedChunks(p, blocks[1..] + rest);
      assert [] + r.out == r.out;
      UnmarkedDropped(p, blocks[1..], rest);
    }
  }

  /** Data for another board, then records of our own: they are dropped with the rest of the block, and so are
      further blocks until one begins with a record mark. If a cut falls before them, they are decoded. */
  lemma CutBehindOtherBoard(p: Parser, d: seq<byte>, s: seq<byte>, blocks: seq<seq<byte>>, b: seq<byte>, t: seq<byte>,
                            more: seq<Line>)
    requires Shaped(p) && !p.load && !p.skip && p.version != 0
    requires DataBytes(d) && Spells(s, d) && BoardBytes(b, 0) && Spells(t, b) && ValidLines(more)
    requires forall i :: 0 <= i < |blocks| ==> !Marked(blocks[i])
    ensures FeedChunks(p, [[COLON] + s + ([COLON] + t + Text(more))]).out == []
    ensures ValidRecords(Records(more))
    ensures FeedChunks(p, [[COLON] + s] + (blocks + [[COLON] + t + Text(more)])).out == Decode(p.next, Records(more))
  {
    hide Feed, FeedBlock, FeedChunks, Decode, Sum, Spells, DataBytes, BoardBytes, Text, Records;
    var _ := OtherBoardSkips(p, d, s, [COLON] + t + Text(more));
    assert [COLON] + s + [] == [COLON] + s;
    var q := OtherBoardSkips(p, d, s, []);
    var r := BoardAnnounced(q.(skip := false), b, t, 0);
    assert Feed(q.(skip := false), [COLON] + t + Text(more)) == Feed(r, Text(more));
    TextDecodes(r, more);
    OneChunk(p, [COLON] + s + ([COLON] + t + Text(more)));
    var last := [COLON] + t + Text(more);
    SkippedFirst(p, [COLON] + s, blocks + [last]);
    UnmarkedDropped(q, blocks, [last]);
    LastChunk(q, last);
    MarkedTaken(q, last);
  }

  lemma MarkedTaken(p: Parser, block: seq<byte>)
    requires Shaped(p) && p.skip && Marked(block)
    ensures FeedBlock(p, block) == Feed(p.(skip := false), block)
  {
  }

  lemma SkippedFirst(p: Parser, a: seq<byte>, rest: seq<seq<byte>>)
    requires Shaped(p) && !p.skip && Feed(p, a).end.Skipped? && Feed(p, a).out == []
    ensures FeedChunks(p, [a] + rest).out == FeedChunks(Feed(p, a).parser, rest).out
  {
    hide Feed, FeedBlock;
    assert ([a] + rest)[1..] == rest;
    var r := FeedChunks(Feed(p, a).parser, rest);
    assert [] + r.out == r.out;
  }

  lemma OtherBoardSkips(p: Parser, bytes: seq<byte>, digits: seq<byte>, tail: seq<byte>) returns (q: Parser)
    requires Shaped(p) && !p.load && !p.skip && p.version != 0 && DataBytes(bytes) && Spells(digits, bytes)
    ensures Shaped(q) && !q.load && q.skip && q.next == p.next
    ensures Feed(p, [COLON] + digits + tail) == Fed([], q, Skipped, [digits[|digits| - 1]] + tail)
  {
    hide LowDigit, Sum;
    var n, d := |bytes|, digits[|digits| - 1];
    FeedMarked(p, bytes, digits, tail);
    assert Digit(digits[2 * (n - 1) + 1], bytes[n - 1] % 0x10);
    DigitDecodes(d, bytes[n - 1] as int % 0x10);
    LastByte(p.next, bytes, d, p.version);
    q := Act(Halfway(p.next, bytes, n - 1, p.version), d).0;
  }

  lemma BoardAnnounced(p: Parser, bytes: seq<byte>, digits: seq<byte>, version: nat) returns (q: Parser)
    requires Shaped(p) && !p.load && !p.skip && BoardBytes(bytes, version) && Spells(digits, bytes)
    ensures Shaped(q) && !q.load && !q.skip && q.next == p.next && q.version == version
    ensures forall tail :: Feed(p, [COLON] + digits + tail) == Feed(q, tail)
  {
    hide LowDigit, Sum;
    var n, d := |bytes|, digits[|digits| - 1];
    assert Digit(digits[2 * (n - 1) + 1], bytes[n - 1] % 0x10);
    DigitDecodes(d, bytes[n - 1] as int % 0x10);
    LastByte(p.next, bytes, d, p.version);
    q := Act(Halfway(p.next, bytes, n - 1, p.version), d).0;
    forall tail ensures Feed(p, [COLON] + digits + tail) == Feed(q, tail) {
      FeedMarked(p, bytes, digits, tail);
      assert ([d] + tail)[1..] == tail;
    }
  }

  lemma FeedNothing(p: Parser)
    requires Shaped(p) && !p.load
    ensures Feed(p, []) == Fed([], p, Running, [])
  {
  }

  lemma NextChunks(p: Parser, q: Parser, a: seq<byte>, rest: seq<seq<byte>>)
    requires Shaped(p) && !p.skip && Feed(p, a) == Fed([], q, Running, [])
    ensures FeedChunks(p, [a] + rest).out == FeedChunks(q, rest).out
  {
    hide Feed, FeedBlock;
    assert ([a] + rest)[1..] == rest;
    assert [] + FeedChunks(q, rest).out == FeedChunks(q, rest).out;
  }

  lemma OneLine(l: Line)
    requires l.eol == []
    ensures Text([l]) == [COLON] + l.digits && Records([l]) == [l.record]
  {
    assert [l][1..] == [];
    assert LineText(l) + [] == [COLON] + l.digits;
  }

  lemma OneByte(v: byte)
    ensures Decode(0, [DataAt(0, [v])]) == [Cell(0, v)]
  {
    assert [DataAt(0, [v])][1..] == [];
    assert CellsFrom(0, [v]) + [] == [Cell(0, v)];
  }

  lemma SumTo(s: seq<byte>, n: nat)
    requires n < |s|
    ensures Sum(s[..n + 1]) == Sum(s[..n]) + s[n] as int
  {
    assert s[..n + 1][..n] == s[..n];
  }

  lemma SumFive(s: seq<byte>)
    requires 5 <= |s|
    ensures Sum(s[..5]) == s[0] as int + s[1] as int + s[2] as int + s[3] as int + s[4] as int
  {
    SumTo(s, 0);
    SumTo(s, 1);
    SumTo(s, 2);
    SumTo(s, 3);
    SumTo(s, 4);
  }

  lemma BoardSums()
    ensures Sum([0, 0, 0, 0, 0]) == 0
    ensures Sum([2, 0, 0, 10, 0, 1, 0xF3]) == 0x100 && Sum([2, 0, 0, 10, 0, 0, 0xF4]) == 0x100
  {
    var a, b, c: seq<byte> := [0, 0, 0, 0, 0], [2, 0, 0, 10, 0, 1, 0xF3], [2, 0, 0, 10, 0, 0, 0xF4];
    SumFive(a);
    SumFive(b);
    SumTo(b, 5);
    SumTo(b, 6);
    SumFive(c);
    SumTo(c, 5);
    SumTo(c, 6);
    assert a[..5] == a && b[..7] == b && c[..7] == c;
  }

  /** A small file: a board is announced, a data record without bytes is its, and one byte is for no board in
      particular. Whether this byte is decoded depends on the cut. */
  lemma CuttingMatters()
    ensures var v := [COLON] + Hex([2, 0, 0, 10, 0, 1, 0xF3]);
            var d := [COLON] + Hex([0, 0, 0, 0, 0]);
            var w := [COLON] + Hex([2, 0, 0, 10, 0, 0, 0xF4]);
            var x := [COLON] + Hex(RecordBytes(DataAt(0, [7])));
            && FeedChunks(RESET, [v, d + (w + x)]).out == []
            && FeedChunks(RESET, [v, d, w + x]).out == [Cell(0, 7)]
  {
    hide Feed, FeedBlock, Hex, RecordBytes, Spells;
    var b, d, c: seq<byte> := [2, 0, 0, 10, 0, 1, 0xF3], [0, 0, 0, 0, 0], [2, 0, 0, 10, 0, 0, 0xF4];
    var l := Line(DataAt(0, [7]), Hex(RecordBytes(DataAt(0, [7]))), []);
    HexSpells(b);
    HexSpells(d);
    HexSpells(c);
    HexSpells(RecordBytes(l.record));
    BoardSums();
    var q := BoardAnnounced(RESET, b, Hex(b), 1);
    assert [COLON] + Hex(b) + [] == [COLON] + Hex(b);
    assert Feed(RESET, [COLON] + Hex(b)) == Feed(q, []) == Fed([], q, Running, []) by { FeedNothing(q); }
    assert ValidLine(l) by { assert LineEnds([]); }
    OneLine(l);
    CutBehindOtherBoard(q, d, Hex(d), [], c, Hex(c), [l]);
    var rest := [COLON] + Hex(c) + Text([l]);
    OneByte(7);
    NextChunks(RESET, q, [COLON] + Hex(b), [[COLON] + Hex(d) + rest]);
    NextChunks(RESET, q, [COLON] + Hex(b), [[COLON] + Hex(d), rest]);
    assert [[COLON] + Hex(d)] + ([] + [rest]) == [[COLON] + Hex(d), rest];
  }

  // ---- damaged records ----

  lemma LastDigit(bytes: seq<byte>, digits: seq<byte>)
    requires bytes != [] && Spells(digits, bytes)
    ensures |digits| == 2 * |bytes| && digits[|digits| - 1] != COLON
    ensures Digit(digits[|digits| - 1], bytes[|bytes| - 1] as int % 0x10)
  {
    var n := |bytes|;
    assert Digit(digits[2 * (n - 1) + 1], bytes[n - 1] % 0x10);
  }

  lemma LastByteWrong(next: u32, bytes: seq<byte>, c: byte, version: nat)
    requires Announced(bytes) && Digit(c, bytes[|bytes| - 1] as int % 0x10) && Sum(bytes) % 0x100 != 0
    ensures Act(Halfway(next, bytes, |bytes| - 1, version), c).1.Corrupt?
  {
    hide Sum;
    hide Digit, Filled, Or;
    var j := |bytes| - 1;
    DigitDecodes(c, bytes[j] as int % 0x10);
    LowDigitOf(next, bytes, j, c, version);
    var line := Reading(next, bytes, j + 1, version).line;
    assert line[0] == bytes[0] && line[..|bytes|] == bytes;
  }

  lemma HalfwayShaped(next: u32, bytes: seq<byte>, version: nat)
    requires Announced(bytes)
    ensures 0 < |bytes| <= LINE_SIZE
    ensures Shaped(Halfway(next, bytes, |bytes| - 1, version)) && !Halfway(next, bytes, |bytes| - 1, version).load
  {
  }

  lemma FeedCorrupt(p: Parser, d: byte, tail: seq<byte>)
    requires Shaped(p) && !p.load && Act(p, d).1.Corrupt?
    ensures Feed(p, [d] + tail).end.BadChecksum? && Feed(p, [d] + tail).out == []
  {
    hide Act;
  }

  lemma WrongSumAt(next: u32, bytes: seq<byte>, d: byte, tail: seq<byte>, version: nat)
    requires Announced(bytes) && Digit(d, bytes[|bytes| - 1] as int % 0x10) && Sum(bytes) % 0x100 != 0
    ensures var f := Feed(Halfway(next, bytes, |bytes| - 1, version), [d] + tail); f.end.BadChecksum? && f.out == []
  {
    hide Sum, Feed, Act, Shaped, Halfway, Digit;
    HalfwayShaped(next, bytes, version);
    LastByteWrong(next, bytes, d, version);
    FeedCorrupt(Halfway(next, bytes, |bytes| - 1, version), d, tail);
  }

  /** A record whose bytes do not add up to 0 modulo 256 is refused, and nothing of it is decoded. */
  lemma WrongSumRefused(p: Parser, bytes: seq<byte>, digits: seq<byte>, tail: seq<byte>)
    requires Shaped(p) && !p.load && !p.skip && Announced(bytes) && Spells(digits, bytes)
    requires Sum(bytes) % 0x100 != 0
    ensures Feed(p, [COLON] + digits + tail).end.BadChecksum? && Feed(p, [COLON] + digits + tail).out == []
  {
    hide Sum, Feed, Spells, Shaped, Halfway;
    LastDigit(bytes, digits);
    FeedMarked(p, bytes, digits, tail);
    WrongSumAt(p.next, bytes, digits[|digits| - 1], tail, p.version);
  }

  lemma {:induction false} SumUpdated(s: seq<byte>, k: nat, v: byte)
    requires k < |s|
    ensures Sum(s[k := v]) == Sum(s) - s[k] as int + v as int
    decreases |s|
  {
    var n, t := |s| - 1, s[k := v];
    if k < n {
      SumUpdated(s[..n], k, v);
      assert t[..n] == s[..n][k := v];
    } else {
      assert t[..n] == s[..n];
    }
  }

  /** A record of which one byte is damaged, in one digit or both, is refused, unless it is the byte count. */
  lemma DamagedByteRefused(p: Parser, r: Record, k: nat, v: byte, digits: seq<byte>, tail: seq<byte>)
    requires Shaped(p) && !p.load && !p.skip && ValidRecord(r)
    requires 0 < k < |RecordBytes(r)| && v != RecordBytes(r)[k] && Spells(digits, RecordBytes(r)[k := v])
    ensures Feed(p, [COLON] + digits + tail).end.BadChecksum? && Feed(p, [COLON] + digits + tail).out == []
  {
    hide Feed, Sum, Spells;
    var bytes := RecordBytes(r);
    RecordSums(r);
    SumUpdated(bytes, k, v);
    OffByLess(Sum(bytes), bytes[k], v);
    WrongSumRefused(p, bytes[k := v], digits, tail);
  }

  lemma OffByLess(s: nat, a: byte, b: byte)
    requires s % 0x100 == 0 && a != b
    ensures (s - a as int + b as int) % 0x100 != 0
  {
  }

  /** The record on the line is complete, and has been processed. */
  predicate Accepted(p: Parser) {
    && Shaped(p) && p.processed
    && p.line[0] as int <= MAX_COUNT && p.idx >= p.line[0] as int + 5 && ChecksumOk(p.line)
  }

  /** Once a record has been accepted, further digits on its line are neither decoded nor refused: the sum is checked
      again over the same bytes. */
  lemma {:induction false} AcceptedOnce(p: Parser, text: seq<byte>)
    requires Accepted(p) && !p.load && COLON !in text
    ensures !Feed(p, text).end.BadChecksum? && Feed(p, text).out == []
    decreases |text|
  {
    hide Sum;
    if text != [] {
      var (q, v) := Act(p, text[0]);
      var n := p.line[0] as int + 5;
      assert q.line[..n] == p.line[..n];
      assert v.Keep? || v.Overrun?;
      if v.Keep? { AcceptedOnce(q, text[1..]); }
    }
  }

  /** The fields of a record once its bytes have been read. */
  lemma ReadLine(line: seq<byte>, bytes: seq<byte>)
    requires Announced(bytes) && Sum(bytes) % 0x100 == 0 && |line| == LINE_SIZE && line[..|bytes|] == bytes
    ensures var w := Swapped(line);
            && w[0] == bytes[0] && w[3] == bytes[3] && ChecksumOk(w)
            && Address(w) == bytes[1] as int * 0x100 + bytes[2] as int
            && Payload(w) == bytes[4..|bytes| - 1]
  {
    SwappedSum(line, bytes);
    hide Sum, ChecksumOk;
    assert forall i :: 0 <= i < |bytes| ==> line[i] == bytes[i];
  }

  lemma SwappedSum(line: seq<byte>, bytes: seq<byte>)
    requires Announced(bytes) && Sum(bytes) % 0x100 == 0 && |line| == LINE_SIZE && line[..|bytes|] == bytes
    ensures Swapped(line)[0] == bytes[0] && ChecksumOk(Swapped(line))
  {
    hide Sum;
    assert line[0] == bytes[0];
    SumSwapped(line, |bytes|);
  }

  /** The line and the verdict when the sum of a record has been found right. */
  lemma CompletedLine(next: u32, bytes: seq<byte>)
    requires Announced(bytes) && Sum(bytes) % 0x100 == 0
    ensures var (c, v) := Complete(Reading(next, bytes, |bytes|).(low := true));
            && Accepted(c) && !v.Corrupt? && c.line[3] == bytes[3] && c.line[0] == bytes[0]
            && Address(c.line) == bytes[1] as int * 0x100 + bytes[2] as int
            && Payload(c.line) == bytes[4..|bytes| - 1]
  {
    hide Sum, Swapped, Payload, ChecksumOk;
    hide Shaped, Filled, Address;
    var line := Reading(next, bytes, |bytes|).line;
    assert line[..|bytes|] == bytes;
    ReadLine(line, bytes);
  }

  /** For every line of digits: it is refused if and only if the bytes that its own byte count announces do not add up
      to 0 modulo 256. */
  lemma RefusedIff(p: Parser, bytes: seq<byte>, digits: seq<byte>, more: seq<byte>)
    requires Between(p) && Announced(bytes) && Spells(digits, bytes) && COLON !in more
    ensures Feed(p, [COLON] + digits + more).end.BadChecksum? <==> Sum(bytes) % 0x100 != 0
  {
    hide Sum, Feed, Act, Complete, Spells;
    if Sum(bytes) % 0x100 != 0 {
      WrongSumRefused(p, bytes, digits, more);
    } else {
      LastDigit(bytes, digits);
      var n, d := |bytes|, digits[|digits| - 1];
      FeedMarked(p, bytes, digits, more);
      LastByte(p.next, bytes, d);
      CompletedLine(p.next, bytes);
      AcceptedEnds(Halfway(p.next, bytes, n - 1), d, more);
    }
  }

  /** The character that completes a record with a right sum. */
  lemma AcceptedEnds(p: Parser, d: byte, more: seq<byte>)
    requires Shaped(p) && !p.load && d != COLON && COLON !in more
    requires Accepted(Act(p, d).0) && !Act(p, d).1.Corrupt?
    ensures !Feed(p, [d] + more).end.BadChecksum?
  {
    hide Sum, Act;
    var (q, v) := Act(p, d);
    assert ([d] + more)[1..] == more;
    match v
    case Keep => AcceptedOnce(q, more);
    case Data => AcceptedOnce(q, more);
    case Postponed => AcceptedOnce(Popped(q), more);
    case Rebased => AcceptedOnce(q, [d] + more);
    case _ =>
  }

  /** A text with a damaged record decodes to what stands before it, and is refused there. */
  lemma {:induction false} DamagedTextRefused(
    p: Parser, before: seq<Line>, r: Record, k: nat, v: byte, digits: seq<byte>, tail: seq<byte>)
    requires Between(p) && ValidLines(before) && ValidRecord(r)
    requires forall i :: 0 <= i < |before| ==> !before[i].record.EndOfFile?
    requires 0 < k < |RecordBytes(r)| && v != RecordBytes(r)[k] && Spells(digits, RecordBytes(r)[k := v])
    ensures ValidRecords(Records(before))
    ensures var f := Feed(p, Text(before) + ([COLON] + digits + tail));
            f.end.BadChecksum? && f.out == Decode(p.next, Records(before))
    decreases |before|
  {
    hide CellsFrom, Feed, Spells, RecordBytes, Shaped, LineText;
    RecordsValid(before);
    var line := [COLON] + digits + tail;
    if before == [] {
      assert Text(before) + line == line;
      DamagedByteRefused(p, r, k, v, digits, tail);
    } else {
      var l, rest := before[0], Text(before[1..]) + line;
      assert Text(before) + line == LineText(l) + rest;
      var q := FeedLine(p, l, rest);
      assert Records(before)[1..] == Records(before[1..]);
      DamagedTextRefused(q, before[1..], r, k, v, digits, tail);
      RecordsValid(before[1..]);
    }
  }

  /** However such a text is cut, decoding ends in the damaged record: it is never decoded to its end. */
  lemma DamagedFileRefused(
    chunks: seq<seq<byte>>, before: seq<Line>, r: Record, k: nat, v: byte, digits: seq<byte>, tail: seq<byte>)
    requires ValidLines(before) && ValidRecord(r)
    requires forall i :: 0 <= i < |before| ==> !before[i].record.EndOfFile?
    requires 0 < k < |RecordBytes(r)| && v != RecordBytes(r)[k] && Spells(digits, RecordBytes(r)[k := v])
    requires Flat(chunks) == Text(before) + ([COLON] + digits + tail)
    ensures ValidRecords(Records(before))
    ensures FeedChunks(RESET, chunks).end.BadChecksum?
    ensures FeedChunks(RESET, chunks).out == Decode(0, Records(before))
  {
    hide Feed, FeedChunks, Text, Spells, RecordBytes, Records, Decode, Flat;
    DamagedTextRefused(RESET, before, r, k, v, digits, tail);
    CutsOnlyAdd(RESET, chunks);
  }

  /** A damaged byte count need not be noticed: a record of two bytes that is taken for one of one byte. */
  lemma DamagedCountAccepted()
    ensures RecordBytes(DataAt(0, [0, 0xFF])) == [2, 0, 0, 0, 0, 0xFF, 0xFF]
    ensures Feed(RESET, [COLON] + Hex([1, 0, 0, 0, 0, 0xFF]) + Hex([0xFF])).out == [Cell(0, 0)]
    ensures !Feed(RESET, [COLON] + Hex([1, 0, 0, 0, 0, 0xFF]) + Hex([0xFF])).end.BadChecksum?
  {
    hide Feed, Sum;
    var r := DataAt(0, [0, 0xFF]);
    assert Body(r) == [2, 0, 0, 0, 0, 0xFF];
    SumFive(Body(r));
    SumTo(Body(r), 5);
    assert Body(r)[..6] == Body(r);
    var bytes: seq<byte> := [1, 0, 0, 0, 0, 0xFF];
    var tail := Hex([0xFF]);
    SumFive(bytes);
    SumTo(bytes, 5);
    assert bytes[..6] == bytes;
    HexSpells(bytes);
    assert COLON !in tail by { assert tail == [UpperDigit(15), UpperDigit(15)] + Hex([0xFF][1..]); }
    RefusedIff(RESET, bytes, Hex(bytes), tail);
    var q := DataDecodes(RESET, bytes, Hex(bytes), tail);
    AcceptedOnce(q, tail);
  }

  // ---- records by their bytes ----

  lemma FeedsData(p: Parser, d: byte, tail: seq<byte>)
    requires Shaped(p) && !p.load
    ensures var (c, v) := Act(p, d);
            && (v.Data? ==> Feed(p, [d] + tail) == Prepend(CellsFrom(p.next, Payload(c.line)), Feed(c, tail)))
            && (v.Postponed? ==>
                  Feed(p, [d] + tail) == Prepend(CellsFrom(PopStart(c), Payload(c.line)), Feed(Popped(c), tail)))
  {
    hide Act;
    assert ([d] + tail)[1..] == tail;
  }

  /** A data record of either type, whoever wrote it. */
  lemma DataDecodes(p: Parser, bytes: seq<byte>, digits: seq<byte>, tail: seq<byte>) returns (q: Parser)
    requires Between(p) && DataBytes(bytes) && Spells(digits, bytes)
    ensures Between(q) && Accepted(q)
    ensures var start := Joined(p.next, bytes[1] as int * 0x100 + bytes[2] as int);
            && q.next == Wrap(start + |bytes| - 5)
            && Feed(p, [COLON] + digits + tail) == Prepend(CellsFrom(start, bytes[4..|bytes| - 1]), Feed(q, tail))
  {
    hide Sum, Act, Feed, LowDigit, Spells, CellsFrom;
    hide Payload;
    LastDigit(bytes, digits);
    var n, d := |bytes|, digits[|digits| - 1];
    FeedMarked(p, bytes, digits, tail);
    LastByte(p.next, bytes, d);
    CompletedLine(p.next, bytes);
    var (c, v) := Complete(Reading(p.next, bytes, n).(low := true));
    FeedsData(Halfway(p.next, bytes, n - 1), d, tail);
    q := if v.Data? then c else Popped(c);
  }

  /** Records of all other types but end of file, the two address records and the announcement of a board. */
  lemma OtherTypesIgnored(p: Parser, bytes: seq<byte>, digits: seq<byte>, tail: seq<byte>) returns (q: Parser)
    requires Between(p) && Announced(bytes) && Spells(digits, bytes) && Sum(bytes) % 0x100 == 0
    requires bytes[3] !in {0, 1, 2, 4, 0x0A, 0x0D}
    ensures Between(q) && q.next == p.next && Feed(p, [COLON] + digits + tail) == Feed(q, tail)
  {
    hide Sum, Act, LowDigit, Spells;
    LastDigit(bytes, digits);
    var n, d := |bytes|, digits[|digits| - 1];
    FeedMarked(p, bytes, digits, tail);
    LastByte(p.next, bytes, d);
    CompletedLine(p.next, bytes);
    q := Act(Halfway(p.next, bytes, n - 1), d).0;
    assert ([d] + tail)[1..] == tail;
  }

  // ---- what the format says ----

  datatype Mode = FromLinear(lba: u32) | FromSegment(sba: u32)

  /** The address of byte `k` of a record at `offset`: modulo 4 GiB under a linear base, and inside the
      segment under a segment base. */
  function Where(m: Mode, offset: nat, k: nat): u32
    requires m.FromSegment? ==> m.sba <= 0xF_FFF0
  {
    match m
    case FromLinear(lba) => Wrap(lba + offset + k)
    case FromSegment(sba) => sba + (offset + k) % 0x1_0000
  }

  function Assigned(m: Mode, offset: nat, bytes: seq<byte>): (r: seq<Cell>)
    requires m.FromSegment? ==> m.sba <= 0xF_FFF0
    ensures |r| == |bytes|
  {
    seq(|bytes|, k requires 0 <= k < |bytes| => Cell(Where(m, offset, k), bytes[k]))
  }

  /** The bytes and addresses the format assigns to a list of records. */
  function Meaning(m: Mode, rs: seq<Record>): seq<Cell>
    requires ValidRecords(rs) && (m.FromSegment? ==> m.sba <= 0xF_FFF0)
    decreases |rs|
  {
    if rs == [] then []
    else match rs[0]
      case DataAt(a, b) => Assigned(m, a, b) + Meaning(m, rs[1..])
      case EndOfFile => []
      case Segment(b) => Meaning(FromSegment(b * 0x10), rs[1..])
      case Linear(u) => Meaning(FromLinear(u * 0x1_0000), rs[1..])
      case _ => Meaning(m, rs[1..])
  }

  /** The records for which the decoder follows the format: no data under a segment base that is not a
      multiple of 64 KiB, no data that leaves its segment, and no data that follows, without an address
      record in between, a record that reached the end of its 64 KiB (`past`). */
  predicate Regular(m: Mode, past: bool, rs: seq<Record>)
    requires ValidRecords(rs)
    decreases |rs|
  {
    if rs == [] then true
    else match rs[0]
      case DataAt(a, b) =>
        if b == [] then Regular(m, past, rs[1..])
        else
          && !past
          && (m.FromSegment? ==> m.sba % 0x1_0000 == 0 && a + |b| <= 0x1_0000)
          && Regular(m, a + |b| >= 0x1_0000, rs[1..])
      case EndOfFile => true
      case Segment(b) => Regular(FromSegment(b * 0x10), false, rs[1..])
      case Linear(u) => Regular(FromLinear(u * 0x1_0000), false, rs[1..])
      case _ => Regular(m, past, rs[1..])
  }

  /** The upper half the decoder holds, for a base and a record that may have run past its 64 KiB. */
  function UpperOf(m: Mode, past: bool): int {
    (if m.FromLinear? then m.lba / 0x1_0000 else m.sba / 0x1_0000) + (if past then 1 else 0)
  }

  predicate Follows(next: u32, m: Mode, past: bool) {
    && (m.FromSegment? ==> m.sba <= 0xF_FFF0)
    && (m.FromLinear? ==> m.lba % 0x1_0000 == 0)
    && next / 0x1_0000 == UpperOf(m, past) % 0x1_0000
  }

  lemma UpperAfter(next: u32, a: nat, n: nat)
    requires a < 0x1_0000 && n <= MAX_COUNT
    ensures After(Joined(next, a), n) / 0x1_0000 ==
            (next / 0x1_0000 + (if a + n >= 0x1_0000 then 1 else 0)) % 0x1_0000
  {
    var h := next / 0x1_0000;
    var x := h * 0x1_0000 + a + n;
    if x >= 0x1_0000_0000 {
      assert Wrap(x) == x - 0x1_0000_0000;
    } else {
      assert Wrap(x) == x;
    }
  }

  lemma JoinedBase(next: u32, m: Mode, past: bool, a: nat)
    requires Follows(next, m, past) && a < 0x1_0000
    ensures m.FromLinear? && !past ==> Joined(next, a) == m.lba + a
    ensures m.FromLinear? && past ==> Joined(next, a) != m.lba + a && Joined(next, a) != m.lba + a - 0x1_0000_0000
    ensures m.FromSegment? ==> Joined(next, a) == (m.sba / 0x1_0000 + (if past then 1 else 0)) * 0x1_0000 + a
  {
    var u := UpperOf(m, past);
    if u == 0x1_0000 {
      assert u % 0x1_0000 == 0;
    } else {
      assert u % 0x1_0000 == u;
    }
  }

  /** One data record: the decoder's addresses are the format's. */
  predicate Agrees(m: Mode, past: bool, a: nat, b: seq<byte>) {
    !past && (m.FromSegment? ==> m.sba % 0x1_0000 == 0 && a + |b| <= 0x1_0000)
  }

  lemma AddressesMatch(next: u32, m: Mode, a: nat, b: seq<byte>)
    requires Follows(next, m, false) && a < 0x1_0000 && 0 < |b| <= MAX_COUNT && Agrees(m, false, a, b)
    ensures CellsFrom(Joined(next, a), b) == Assigned(m, a, b)
  {
    JoinedBase(next, m, false, a);
    var l, r := CellsFrom(Joined(next, a), b), Assigned(m, a, b);
    forall k | 0 <= k < |b| ensures l[k] == r[k] {
      if m.FromSegment? { assert (a + k) % 0x1_0000 == a + k; }
    }
  }

  lemma FirstAddressDiffers(next: u32, m: Mode, past: bool, a: nat)
    requires Follows(next, m, past) && a < 0x1_0000
    requires past || (m.FromSegment? && m.sba % 0x1_0000 != 0)
    ensures Joined(next, a) != Where(m, a, 0)
  {
    JoinedBase(next, m, past, a);
  }

  lemma LeavesSegment(next: u32, m: Mode, a: nat, b: seq<byte>)
    requires Follows(next, m, false) && a < 0x1_0000 && |b| <= MAX_COUNT
    requires m.FromSegment? && m.sba % 0x1_0000 == 0 && a + |b| > 0x1_0000
    ensures CellsFrom(Joined(next, a), b) != Assigned(m, a, b)
  {
    JoinedBase(next, m, false, a);
    var k := 0x1_0000 - a;
    assert (a + k) % 0x1_0000 == 0;
    assert CellsFrom(Joined(next, a), b)[k].addr != Assigned(m, a, b)[k].addr;
  }

  lemma RecordAgrees(next: u32, m: Mode, past: bool, a: nat, b: seq<byte>)
    requires Follows(next, m, past) && a < 0x1_0000 && 0 < |b| <= MAX_COUNT
    ensures CellsFrom(Joined(next, a), b) == Assigned(m, a, b) <==> Agrees(m, past, a, b)
  {
    if Agrees(m, past, a, b) {
      AddressesMatch(next, m, a, b);
    } else if past || (m.FromSegment? && m.sba % 0x1_0000 != 0) {
      FirstAddressDiffers(next, m, past, a);
      assert CellsFrom(Joined(next, a), b)[0].addr != Assigned(m, a, b)[0].addr;
    } else {
      LeavesSegment(next, m, a, b);
    }
  }

  lemma SplitEqual(a: seq<Cell>, b: seq<Cell>, x: seq<Cell>, y: seq<Cell>)
    requires |a| == |b|
    ensures a + x == b + y <==> a == b && x == y
  {
    if a + x == b + y {
      assert a == (a + x)[..|a|] && b == (b + y)[..|b|];
      assert x == (a + x)[|a|..] && y == (b + y)[|b|..];
    }
  }

  /** For every list of records: the decoder yields exactly the bytes and addresses of the format if and
      only if the list is regular. */
  lemma {:induction false} DecodesToMeaning(next: u32, m: Mode, past: bool, rs: seq<Record>)
    requires ValidRecords(rs) && Follows(next, m, past)
    ensures Decode(next, rs) == Meaning(m, rs) <==> Regular(m, past, rs)
    decreases |rs|
  {
    if rs != [] {
      match rs[0]
      case DataAt(a, b) =>
        var after := After(Joined(next, a), |b|);
        UpperAfter(next, a, |b|);
        SplitEqual(CellsFrom(Joined(next, a), b), Assigned(m, a, b), Decode(after, rs[1..]), Meaning(m, rs[1..]));
        if b == [] {
          DecodesToMeaning(after, m, past, rs[1..]);
        } else {
          RecordAgrees(next, m, past, a, b);
          if Agrees(m, past, a, b) {
            DecodesToMeaning(after, m, a + |b| >= 0x1_0000, rs[1..]);
          }
        }
      case EndOfFile =>
      case Segment(b) => DecodesToMeaning(b * 0x10, FromSegment(b * 0x10), false, rs[1..]);
      case Linear(u) => DecodesToMeaning(u * 0x1_0000, FromLinear(u * 0x1_0000), false, rs[1..]);
      case _ => DecodesToMeaning(next, m, past, rs[1..]);
    }
  }

  /** From a reset parser: a text of regular records decodes to exactly what the format assigns, however
      it is cut into chunks; a text of irregular records does not. */
  lemma HexRoundTrip(lines: seq<Line>, chunks: seq<seq<byte>>)
    requires ValidLines(lines) && Flat(chunks) == Text(lines)
    requires ValidRecords(Records(lines)) && EndsOnce(Records(lines))
    ensures FeedChunks(RESET, chunks).end.Running?
    ensures FeedChunks(RESET, chunks).out == Meaning(FromLinear(0), Records(lines))
            <==> Regular(FromLinear(0), false, Records(lines))
  {
    TextDecodes(RESET, lines);
    ChunkIndependent(RESET, chunks);
    DecodesToMeaning(0, FromLinear(0), false, Records(lines));
  }

  /** A small file the decoder gets wrong: a segment base off a multiple of 64 KiB. */
  lemma OddSegmentMisplaced()
    ensures var a := [Segment(0x1234), DataAt(0, [7])];
            && ValidRecords(a) && Decode(0, a) == [Cell(0x1_0000, 7)]
            && Meaning(FromLinear(0), a) == [Cell(0x1_2340, 7)]
  {
    var a := [Segment(0x1234), DataAt(0, [7])];
    assert a[1..] == [DataAt(0, [7])] && a[1..][1..] == [];
    assert Decode(0x1_2340, a[1..]) == CellsFrom(0x1_0000, [7]) + [];
    assert Meaning(FromSegment(0x1_2340), a[1..]) == Assigned(FromSegment(0x1_2340), 0, [7]) + [];
  }

  /** Another one: data that follows a record ending at the top of its 64 KiB. */
  lemma DataPastTopMisplaced()
    ensures var b := [DataAt(0xFFFF, [7]), DataAt(0, [8])];
            && ValidRecords(b) && Decode(0, b) == [Cell(0xFFFF, 7), Cell(0x1_0000, 8)]
            && Meaning(FromLinear(0), b) == [Cell(0xFFFF, 7), Cell(0, 8)]
  {
    var b := [DataAt(0xFFFF, [7]), DataAt(0, [8])];
    assert b[1..] == [DataAt(0, [8])] && b[1..][1..] == [];
    assert After(Joined(0, 0xFFFF), 1) == 0x1_0000;
    assert Decode(0x1_0000, b[1..]) == CellsFrom(0x1_0000, [8]) + [];
    assert Decode(0, b) == CellsFrom(0xFFFF, [7]) + CellsFrom(0x1_0000, [8]);
    assert Meaning(FromLinear(0), b[1..]) == Assigned(FromLinear(0), 0, [8]) + [];
  }
}
