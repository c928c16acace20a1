/** Bytes, 32-bit words, and overlaying one byte string on another. */
module Words {

  type byte = x: int | 0 <= x < 0x100
  type u32 = x: int | 0 <= x < 0x1_0000_0000

  const ADDRESS_SPACE: nat := 0x1_0000_0000
  const ERASED: byte := 0xFF

  datatype Option<+T> = None | Some(value: T)

  function Wrap(x: int): u32 {
    x % 0x1_0000_0000
  }

  /** The multiple of `boundary` at or below `value` (the source's ROUND_DOWN). */
  function RoundDown(value: nat, boundary: nat): nat
    requires boundary > 0
  {
    value - value % boundary
  }

  function Filled(n: nat, b: byte): (s: seq<byte>)
    ensures |s| == n && forall i :: 0 <= i < n ==> s[i] == b
  {
    seq(n, i => b)
  }

  /** `s` with `d` written over it from index `at` on. */
  function Overlay(s: seq<byte>, at: nat, d: seq<byte>): (r: seq<byte>)
    requires at + |d| <= |s|
    ensures |r| == |s|
  {
    s[..at] + d + s[at + |d|..]
  }

  /** `t` differs from `s` at most in the `n` bytes from index `at` on. */
  predicate SameAround(s: seq<byte>, t: seq<byte>, at: nat, n: nat) {
    && |t| == |s|
    && at + n <= |s|
    && t[..at] == s[..at]
    && t[at + n..] == s[at + n..]
  }

  lemma SameAroundIsOverlay(s: seq<byte>, t: seq<byte>, at: nat, n: nat)
    requires SameAround(s, t, at, n)
    ensures t == Overlay(s, at, t[at..at + n])
  {
    assert t == t[..at] + t[at..at + n] + t[at + n..];
  }

  lemma OverlaySlice(s: seq<byte>, at: nat, d: seq<byte>)
    requires at + |d| <= |s|
    ensures Overlay(s, at, d)[at..at + |d|] == d
    ensures SameAround(s, Overlay(s, at, d), at, |d|)
  {
  }

  /** Overlaying what is there already changes nothing, and only that. */
  lemma OverlayIdle(s: seq<byte>, at: nat, d: seq<byte>)
    requires at + |d| <= |s|
    ensures Overlay(s, at, d) == s <==> s[at..at + |d|] == d
  {
    OverlaySlice(s, at, d);
    if s[at..at + |d|] == d {
      assert s == s[..at] + s[at..at + |d|] + s[at + |d|..];
    }
  }

  /** A change inside one range is invisible in a window disjoint from it. */
  lemma SameAroundElsewhere(s: seq<byte>, t: seq<byte>, at: nat, n: nat, lo: nat, hi: nat)
    requires SameAround(s, t, at, n) && lo <= hi <= |s|
    requires hi <= at || at + n <= lo
    ensures t[lo..hi] == s[lo..hi]
  {
    SameAroundIsOverlay(s, t, at, n);
    assert forall i :: 0 <= i < |s| && !(at <= i < at + n) ==> t[i] == s[i];
  }

  lemma SameAroundSelf(s: seq<byte>, at: nat, n: nat)
    requires at + n <= |s|
    ensures SameAround(s, s, at, n)
  {
  }

  /** Two changes inside one range make one change inside it. */
  lemma SameAroundTrans(s: seq<byte>, t: seq<byte>, u: seq<byte>, at: nat, n: nat, at2: nat, n2: nat)
    requires SameAround(s, t, at, n) && SameAround(t, u, at2, n2)
    requires at <= at2 && at2 + n2 <= at + n
    ensures SameAround(s, u, at, n)
  {
    assert u[..at] == u[..at2][..at] == t[..at];
    assert u[at + n..] == u[at2 + n2..][at + n - at2 - n2..] == t[at + n..];
  }

  /** Little-endian value of four bytes. */
  function Word(b: seq<byte>): u32
    requires |b| == 4
  {
    b[0] as int + 0x100 * b[1] as int + 0x1_0000 * b[2] as int + 0x100_0000 * b[3] as int
  }

  function WordBytes(w: u32): (b: seq<byte>)
    ensures |b| == 4
  {
    [w % 0x100, w / 0x100 % 0x100, w / 0x1_0000 % 0x100, w / 0x100_0000]
  }

  lemma Digits(low: byte, high: nat)
    ensures (low + 0x100 * high) % 0x100 == low && (low + 0x100 * high) / 0x100 == high
  {
  }

  lemma WordRoundTrip(b: seq<byte>)
    requires |b| == 4
    ensures WordBytes(Word(b)) == b
  {
    var w := Word(b);
    Digits(b[0], b[1] as int + 0x100 * b[2] as int + 0x1_0000 * b[3] as int);
    Digits(b[1], b[2] as int + 0x100 * b[3] as int);
    Digits(b[2], b[3]);
    assert w / 0x1_0000 == w / 0x100 / 0x100 && w / 0x100_0000 == w / 0x1_0000 / 0x100;
  }

  lemma BytesRoundTrip(w: u32)
    ensures Word(WordBytes(w)) == w
  {
    assert w == w % 0x100 + 0x100 * (w / 0x100);
    assert w / 0x100 == w / 0x100 % 0x100 + 0x100 * (w / 0x100 / 0x100);
    assert w / 0x100 / 0x100 == w / 0x1_0000;
    assert w / 0x1_0000 == w / 0x1_0000 % 0x100 + 0x100 * (w / 0x1_0000 / 0x100);
    assert w / 0x1_0000 / 0x100 == w / 0x100_0000;
  }

  /** The byte on lane `k` of a word, counted from the least significant one. */
  function Lane(w: u32, k: nat): byte
    requires k < 4
  {
    WordBytes(w)[k]
  }

  // ---- multiples ----

  /** The product of a positive factor and a nonzero integer is at least that factor in size. */
  lemma ProductGap(z: nat, k: int)
    requires z > 0
    ensures k >= 1 ==> z * k >= z
    ensures k <= -1 ==> z * k + z <= 0
  {
  }

  lemma MultipleMod(p: int, z: nat)
    requires z > 0
    ensures (z * p) % z == 0
  {
    var x := z * p;
    var d, m := x / z, x % z;
    assert m == z * (p - d);
    ProductGap(z, p - d);
  }

  lemma MultipleSum(a: nat, b: nat, z: nat)
    requires z > 0 && a % z == 0 && b % z == 0
    ensures (a + b) % z == 0
  {
    var p, q := a / z, b / z;
    assert a + b == z * (p + q);
    MultipleMod(p + q, z);
  }

  lemma RoundDownMultiple(v: nat, z: nat)
    requires z > 0
    ensures RoundDown(v, z) % z == 0 && 0 <= RoundDown(v, z) <= v < RoundDown(v, z) + z
  {
    assert RoundDown(v, z) == z * (v / z);
    MultipleMod(v / z, z);
  }

  /** Distinct multiples of z are at least z apart. */
  lemma MultiplesApart(a: nat, b: nat, z: nat)
    requires z > 0 && a % z == 0 && b % z == 0 && a < b
    ensures a + z <= b
  {
    assert b - a == z * (b / z - a / z);
    ProductGap(z, b / z - a / z);
  }

  /** RoundDown stays between the multiples around its argument. */
  lemma RoundDownBetween(v: nat, z: nat, lo: nat, hi: nat)
    requires z > 0 && lo % z == 0 && hi % z == 0 && lo <= v < hi
    ensures lo <= RoundDown(v, z) && RoundDown(v, z) + z <= hi
  {
    RoundDownMultiple(v, z);
    if RoundDown(v, z) < lo { MultiplesApart(RoundDown(v, z), lo, z); }
    MultiplesApart(RoundDown(v, z), hi, z);
  }

  /** Every value of one aligned block rounds down to its start, and no other value does. */
  lemma RoundDownBlock(v: nat, z: nat, s: nat)
    requires z > 0 && s % z == 0
    ensures RoundDown(v, z) == s <==> s <= v < s + z
  {
    RoundDownMultiple(v, z);
    if RoundDown(v, z) < s { MultiplesApart(RoundDown(v, z), s, z); }
    if s < RoundDown(v, z) { MultiplesApart(s, RoundDown(v, z), z); }
  }
}
