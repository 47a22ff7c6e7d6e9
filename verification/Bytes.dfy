/** Bytes, machine words and their little-endian layout. */
module Bytes {

  type byte = x: int | 0 <= x < 0x100
  type u16 = x: int | 0 <= x < 0x1_0000
  type u32 = x: int | 0 <= x < 0x1_0000_0000

  const U32_MAX: u32 := 0xFFFF_FFFF

  function WrappingAdd(x: u32, y: u32): u32 {
    (x + y) % 0x1_0000_0000
  }

  function WrappingSub(x: u32, y: u32): u32 {
    (x - y) % 0x1_0000_0000
  }

  /** Whether `at` has come, on a millisecond counter that wraps. */
  predicate Due(now: u32, at: u32) {
    WrappingSub(now, at) < 0x8000_0000
  }

  /** A timer set `delay` ahead is due from then on, and not before, for the next twenty-four days. */
  lemma DueAfter(now: u32, delay: u32, later: u32)
    requires delay < 0x8000_0000 && later < 0x8000_0000 + delay
    ensures Due(WrappingAdd(now, later), WrappingAdd(now, delay)) <==> later >= delay
  {}

  function Le16(x: u16): (b: seq<byte>)
    ensures |b| == 2
  {
    [x % 0x100, x / 0x100]
  }

  function FromLe16(b: seq<byte>): u16
    requires |b| == 2
  {
    var lo: int, hi: int := b[0], b[1];
    lo + 0x100 * hi
  }

  function Le32(x: u32): (b: seq<byte>)
    ensures |b| == 4
  {
    Le16(x % 0x1_0000) + Le16(x / 0x1_0000)
  }

  function FromLe32(b: seq<byte>): u32
    requires |b| == 4
  {
    FromLe16([b[0], b[1]]) + 0x1_0000 * FromLe16([b[2], b[3]])
  }

  /** The number of which the four bytes at `at` are the digits, lowest first. */
  function NumberAt(b: seq<byte>, at: nat): int
    requires at + 4 <= |b|
  {
    var b0: int, b1: int, b2: int, b3: int := b[at], b[at + 1], b[at + 2], b[at + 3];
    b0 + 0x100 * b1 + 0x1_0000 * b2 + 0x100_0000 * b3
  }

  lemma WordIsNumber(b: seq<byte>, at: nat)
    requires at + 4 <= |b|
    ensures FromLe32(b[at..at + 4]) == NumberAt(b, at)
  {}

  lemma Le16RoundTrip(x: u16)
    ensures FromLe16(Le16(x)) == x
  {}

  lemma Le32RoundTrip(x: u32)
    ensures FromLe32(Le32(x)) == x
  {
    assert [Le32(x)[0], Le32(x)[1]] == Le16(x % 0x1_0000);
    assert [Le32(x)[2], Le32(x)[3]] == Le16(x / 0x1_0000);
    Le16RoundTrip(x % 0x1_0000);
    Le16RoundTrip(x / 0x1_0000);
  }

  lemma Le32OfFrom(b: seq<byte>)
    requires |b| == 4
    ensures Le32(FromLe32(b)) == b
  {
    var lo, hi := FromLe16([b[0], b[1]]), FromLe16([b[2], b[3]]);
    assert FromLe32(b) % 0x1_0000 == lo && FromLe32(b) / 0x1_0000 == hi;
    assert Le16(lo) == [b[0], b[1]] && Le16(hi) == [b[2], b[3]];
  }

  lemma NextBv(x: bv8)
    requires x < 255
    ensures (x + 1) as int == x as int + 1
  {}

  lemma {:induction false} ByteThroughBv(b: nat)
    requires b < 0x100
    ensures (b as bv8) as int == b
  {
    if b > 0 {
      ByteThroughBv(b - 1);
      NextBv((b - 1) as bv8);
    }
  }

  /** `n` copies of one byte. */
  function Repeat(b: byte, n: nat): (s: seq<byte>)
    ensures |s| == n
    ensures forall i :: 0 <= i < n ==> s[i] == b
  {
    seq(n, i => b)
  }

  /** The bytes of `parts`, one after another. */
  function Concat(parts: seq<seq<byte>>): seq<byte> {
    if parts == [] then [] else Concat(parts[..|parts| - 1]) + parts[|parts| - 1]
  }

  lemma {:induction false} ConcatSplit(a: seq<seq<byte>>, b: seq<seq<byte>>)
    ensures Concat(a + b) == Concat(a) + Concat(b)
  {
    if b == [] {
      assert a + b == a;
    } else {
      var n := |b| - 1;
      ConcatSplit(a, b[..n]);
      assert (a + b)[..|a + b| - 1] == a + b[..n];
    }
  }
}
