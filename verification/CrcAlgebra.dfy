/** Repeated application of a map that respects an addition, for any carrier. */
module LinearMaps {

  ghost predicate Linear<T(!new)>(f: T -> T, plus: (T, T) -> T) {
    forall x, y :: f(plus(x, y)) == plus(f(x), f(y))
  }

  ghost predicate Injective<T(!new)>(f: T -> T) {
    forall x, y :: f(x) == f(y) ==> x == y
  }

  ghost predicate Associative<T(!new)>(plus: (T, T) -> T) {
    forall x, y, z :: plus(plus(x, y), z) == plus(x, plus(y, z))
  }

  function Iterate<T>(f: T -> T, c: T, n: nat): T {
    if n == 0 then c else f(Iterate(f, c, n - 1))
  }

  lemma {:induction false} IterateLinear<T(!new)>(f: T -> T, plus: (T, T) -> T, x: T, y: T, n: nat)
    requires Linear(f, plus)
    ensures Iterate(f, plus(x, y), n) == plus(Iterate(f, x, n), Iterate(f, y, n))
  {
    if n > 0 {
      IterateLinear(f, plus, x, y, n - 1);
    }
  }

  lemma {:induction false} IterateInjective<T(!new)>(f: T -> T, x: T, y: T, n: nat)
    requires Injective(f)
    requires Iterate(f, x, n) == Iterate(f, y, n)
    ensures x == y
  {
    if n > 0 {
      IterateInjective(f, x, y, n - 1);
    }
  }

  /**
   Four summands that enter one step apart may all enter before the first step,
   each lifted by as many steps as it would have missed.
   */
  lemma MixEarly<T(!new)>(f: T -> T, plus: (T, T) -> T, c: T, w0: T, w1: T, w2: T, w3: T, u1: T, u2: T, u3: T)
    requires Linear(f, plus) && Associative(plus)
    requires f(u1) == w1 && f(f(u2)) == w2 && f(f(f(u3))) == w3
    ensures f(plus(f(plus(f(plus(f(plus(c, w0)), w1)), w2)), w3))
         == f(f(f(f(plus(c, plus(w0, plus(u1, plus(u2, u3))))))))
  {
    var c0 := plus(c, w0);
    assert plus(f(c0), w1) == f(plus(c0, u1));
    var c1 := plus(c0, u1);
    assert plus(f(f(c1)), w2) == f(plus(f(c1), f(u2)));
    assert plus(f(c1), f(u2)) == f(plus(c1, u2));
    var c2 := plus(c1, u2);
    assert plus(f(f(f(c2))), w3) == f(plus(f(f(c2)), f(f(u3))));
    assert plus(f(f(c2)), f(f(u3))) == f(plus(f(c2), f(u3)));
    assert plus(f(c2), f(u3)) == f(plus(c2, u3));
    assert plus(c2, u3) == plus(plus(c0, u1), plus(u2, u3));
    assert plus(plus(c0, u1), plus(u2, u3)) == plus(c0, plus(u1, plus(u2, u3)));
  }
}

/** Registers folded over messages, for any register and any symbol. */
module Folds {

  function Fold<T, B>(step: (T, B) -> T, c: T, s: seq<B>): T {
    if s == [] then c else step(Fold(step, c, s[..|s| - 1]), s[|s| - 1])
  }

  /** Feeding a message in two pieces is feeding it whole. */
  lemma {:induction false} FoldSplit<T, B>(step: (T, B) -> T, c: T, a: seq<B>, b: seq<B>)
    ensures Fold(step, c, a + b) == Fold(step, Fold(step, c, a), b)
  {
    if b == [] {
      assert a + b == a;
    } else {
      var n := |b| - 1;
      FoldSplit(step, c, a, b[..n]);
      assert (a + b)[..|a + b| - 1] == a + b[..n];
    }
  }

  ghost predicate LeftInjective<T(!new), B(!new)>(step: (T, B) -> T) {
    forall x, y, b :: step(x, b) == step(y, b) ==> x == y
  }

  /** Distinct registers stay distinct under any common suffix. */
  lemma {:induction false} FoldInjective<T(!new), B(!new)>(step: (T, B) -> T, c: T, d: T, s: seq<B>)
    requires LeftInjective(step)
    requires Fold(step, c, s) == Fold(step, d, s)
    ensures c == d
  {
    if s != [] {
      FoldInjective(step, c, d, s[..|s| - 1]);
    }
  }

  lemma FoldOfFour<T, B>(step: (T, B) -> T, c: T, s: seq<B>)
    requires |s| == 4
    ensures Fold(step, c, s) == step(step(step(step(c, s[0]), s[1]), s[2]), s[3])
  {
    assert s[..3][..2] == s[..2];
    assert s[..2][..1] == s[..1];
    assert s[..1][..0] == s[..0];
    assert Fold(step, c, s[..1]) == step(Fold(step, c, s[..0]), s[0]);
    assert Fold(step, c, s[..2]) == step(Fold(step, c, s[..1]), s[1]);
    assert Fold(step, c, s[..3]) == step(Fold(step, c, s[..2]), s[2]);
  }

  /** Any two different four-symbol messages leave different registers. */
  ghost predicate FourInjective<T(!new), B(!new)>(step: (T, B) -> T) {
    forall c, v, w :: |v| == |w| == 4 && Fold(step, c, v) == Fold(step, c, w) ==> v == w
  }

  /** `a` and `b` agree everywhere except possibly in `[at, at + 4)`. */
  ghost predicate DifferInWindow<B>(a: seq<B>, b: seq<B>, at: nat) {
    && |a| == |b|
    && forall i :: 0 <= i < |a| && a[i] != b[i] ==> at <= i < at + 4
  }

  lemma WindowInjective<T(!new), B(!new)>(step: (T, B) -> T, c: T, v: seq<B>, w: seq<B>, filler: B)
    requires FourInjective(step)
    requires |v| == |w| <= 4
    requires Fold(step, c, v) == Fold(step, c, w)
    ensures v == w
  {
    var pad := seq(4 - |v|, i => filler);
    FoldSplit(step, c, v, pad);
    FoldSplit(step, c, w, pad);
    assert v + pad == w + pad;
    assert v == (v + pad)[..|v|] == (w + pad)[..|w|] == w;
  }

  /** Messages that differ only inside one window cannot leave the same register. */
  lemma BurstDetected<T(!new), B(!new)>(step: (T, B) -> T, c: T, a: seq<B>, b: seq<B>, at: nat)
    requires LeftInjective(step) && FourInjective(step)
    requires DifferInWindow(a, b, at)
    requires Fold(step, c, a) == Fold(step, c, b)
    ensures a == b
  {
    if |a| > 0 {
      var lo := if at <= |a| then at else |a|;
      var hi := if at + 4 <= |a| then at + 4 else |a|;
      assert a == a[..lo] + (a[lo..hi] + a[hi..]);
      assert b == b[..lo] + (b[lo..hi] + b[hi..]);
      assert a[..lo] == b[..lo] && a[hi..] == b[hi..];
      var r := Fold(step, c, a[..lo]);
      FoldSplit(step, c, a[..lo], a[lo..hi] + a[hi..]);
      FoldSplit(step, c, b[..lo], b[lo..hi] + b[hi..]);
      FoldSplit(step, r, a[lo..hi], a[hi..]);
      FoldSplit(step, r, b[lo..hi], b[hi..]);
      FoldInjective(step, Fold(step, r, a[lo..hi]), Fold(step, r, b[lo..hi]), a[hi..]);
      WindowInjective(step, r, a[lo..hi], b[lo..hi], a[0]);
    }
  }
}

/**
 The shift register of CRC-32 (clause 3.2.9 of IEEE 802.3): one step is linear
 over XOR and injective, and eight steps carry a byte down by eight places.
 */
module CrcAlgebra {
  import opened LinearMaps

  const POLY: bv32 := 0xEDB8_8320

  /** One division step. */
  function Bit(c: bv32): bv32 {
    if c & 1 != 0 then (c >> 1) ^ POLY else c >> 1
  }

  function Xor(x: bv32, y: bv32): bv32 {
    x ^ y
  }

  function Complement(x: bv32): bv32 {
    !x
  }

  /** Eight steps: what one message byte costs. */
  function Bits8(c: bv32): bv32 {
    Iterate(Bit, c, 8)
  }

  predicate Odd(x: bv32) {
    x & 1 != 0
  }

  lemma OddXor(x: bv32, y: bv32)
    ensures Odd(Xor(x, y)) == (Odd(x) != Odd(y))
  {}

  lemma Commute(x: bv32, y: bv32)
    ensures Xor(x, y) == Xor(y, x)
  {}

  lemma Cancel(x: bv32, y: bv32, z: bv32)
    requires Xor(x, z) == Xor(y, z)
    ensures x == y
  {}

  lemma BitLinearOddOdd(x: bv32, y: bv32)
    requires Odd(x) && Odd(y)
    ensures Bit(Xor(x, y)) == Xor(Bit(x), Bit(y))
  {
    calc {
      Bit(Xor(x, y));
      { OddXor(x, y); }
      (x ^ y) >> 1;
      (x >> 1) ^ (y >> 1);
    }
  }

  lemma BitLinearOddEven(x: bv32, y: bv32)
    requires Odd(x) && !Odd(y)
    ensures Bit(Xor(x, y)) == Xor(Bit(x), Bit(y))
  {
    calc {
      Bit(Xor(x, y));
      { OddXor(x, y); }
      ((x ^ y) >> 1) ^ POLY;
      ((x >> 1) ^ POLY) ^ (y >> 1);
    }
  }

  lemma BitLinearEvenEven(x: bv32, y: bv32)
    requires !Odd(x) && !Odd(y)
    ensures Bit(Xor(x, y)) == Xor(Bit(x), Bit(y))
  {
    calc {
      Bit(Xor(x, y));
      { OddXor(x, y); }
      (x ^ y) >> 1;
      (x >> 1) ^ (y >> 1);
    }
  }

  lemma BitLinear(x: bv32, y: bv32)
    ensures Bit(Xor(x, y)) == Xor(Bit(x), Bit(y))
  {
    if Odd(x) {
      if Odd(y) {
        BitLinearOddOdd(x, y);
      } else {
        BitLinearOddEven(x, y);
      }
    } else if Odd(y) {
      BitLinearOddEven(y, x);
      Commute(x, y);
      Commute(Bit(x), Bit(y));
    } else {
      BitLinearEvenEven(x, y);
    }
  }

  lemma BitIsLinear()
    ensures Linear(Bit, Xor)
  {
    forall x, y
      ensures Bit(Xor(x, y)) == Xor(Bit(x), Bit(y))
    {
      BitLinear(x, y);
    }
  }

  lemma BitInjective(x: bv32, y: bv32)
    requires Bit(x) == Bit(y)
    ensures x == y
  {}

  lemma BitIsInjective()
    ensures Injective(Bit)
  {
    forall x, y | Bit(x) == Bit(y)
      ensures x == y
    {
      BitInjective(x, y);
    }
  }

  /** The byte step is linear over XOR. */
  lemma Bits8IsLinear()
    ensures Linear(Bits8, Xor)
  {
    BitIsLinear();
    forall x, y
      ensures Bits8(Xor(x, y)) == Xor(Bits8(x), Bits8(y))
    {
      IterateLinear(Bit, Xor, x, y, 8);
    }
  }

  /** The byte step loses nothing. */
  lemma Bits8Injective(x: bv32, y: bv32)
    requires Bits8(x) == Bits8(y)
    ensures x == y
  {
    BitIsInjective();
    IterateInjective(Bit, x, y, 8);
  }

  lemma XorAssociates(x: bv32, y: bv32, z: bv32)
    ensures Xor(Xor(x, y), z) == Xor(x, Xor(y, z))
  {}

  lemma XorIsAssociative()
    ensures Associative(Xor)
  {
    forall x, y, z
      ensures Xor(Xor(x, y), z) == Xor(x, Xor(y, z))
    {
      XorAssociates(x, y, z);
    }
  }

  function Unrolled(c: bv32): bv32 {
    Bit(Bit(Bit(Bit(Bit(Bit(Bit(Bit(c))))))))
  }

  lemma Bits8Unrolled(c: bv32)
    ensures Bits8(c) == Unrolled(c)
  {
    var c1 := Iterate(Bit, c, 1);
    assert c1 == Bit(c);
    var c2 := Iterate(Bit, c, 2);
    assert c2 == Bit(c1);
    var c3 := Iterate(Bit, c, 3);
    assert c3 == Bit(c2);
    var c4 := Iterate(Bit, c, 4);
    assert c4 == Bit(c3);
    var c5 := Iterate(Bit, c, 5);
    assert c5 == Bit(c4);
    var c6 := Iterate(Bit, c, 6);
    assert c6 == Bit(c5);
    var c7 := Iterate(Bit, c, 7);
    assert c7 == Bit(c6);
    assert Iterate(Bit, c, 8) == Bit(c7);
  }

  /** Eight steps carry a lifted byte down by eight places, untouched. */
  lemma Down8(b: bv8)
    ensures Bits8((b as bv32) << 8) == b as bv32
  {
    Bits8Unrolled((b as bv32) << 8);
    UnrolledDown8(b);
  }

  lemma Down16(b: bv8)
    ensures Bits8((b as bv32) << 16) == (b as bv32) << 8
  {
    Bits8Unrolled((b as bv32) << 16);
    UnrolledDown16(b);
  }

  lemma Down24(b: bv8)
    ensures Bits8((b as bv32) << 24) == (b as bv32) << 16
  {
    Bits8Unrolled((b as bv32) << 24);
    UnrolledDown24(b);
  }

  lemma UnrolledDown8(b: bv8)
    ensures Unrolled((b as bv32) << 8) == b as bv32
  {}

  lemma UnrolledDown16(b: bv8)
    ensures Unrolled((b as bv32) << 16) == (b as bv32) << 8
  {}

  lemma UnrolledDown24(b: bv8)
    ensures Unrolled((b as bv32) << 24) == (b as bv32) << 16
  {}

  /** Four bytes as one little-endian word. */
  function Word(b0: bv8, b1: bv8, b2: bv8, b3: bv8): bv32 {
    Xor(b0 as bv32, Xor((b1 as bv32) << 8, Xor((b2 as bv32) << 16, (b3 as bv32) << 24)))
  }

  lemma WordInjective(a0: bv8, a1: bv8, a2: bv8, a3: bv8, b0: bv8, b1: bv8, b2: bv8, b3: bv8)
    requires Word(a0, a1, a2, a3) == Word(b0, b1, b2, b3)
    ensures a0 == b0 && a1 == b1 && a2 == b2 && a3 == b3
  {}

  /** Four message bytes act on the register as one XORed word. */
  lemma FourBytes(c: bv32, b0: bv8, b1: bv8, b2: bv8, b3: bv8)
    ensures Bits8(Xor(Bits8(Xor(Bits8(Xor(Bits8(Xor(c, b0 as bv32)), b1 as bv32)), b2 as bv32)), b3 as bv32))
         == Bits8(Bits8(Bits8(Bits8(Xor(c, Word(b0, b1, b2, b3))))))
  {
    Bits8IsLinear();
    XorIsAssociative();
    Down8(b1);
    Down16(b2);
    Down8(b2);
    Down24(b3);
    Down16(b3);
    Down8(b3);
    MixEarly(Bits8, Xor, c, b0 as bv32, b1 as bv32, b2 as bv32, b3 as bv32,
             (b1 as bv32) << 8, (b2 as bv32) << 16, (b3 as bv32) << 24);
  }

  /** The bytes of a word, lowest first. */
  function Lane0(v: bv32): bv8 {
    (v & 0xFF) as bv8
  }

  function Lane1(v: bv32): bv8 {
    ((v >> 8) & 0xFF) as bv8
  }

  function Lane2(v: bv32): bv8 {
    ((v >> 16) & 0xFF) as bv8
  }

  function Lane3(v: bv32): bv8 {
    ((v >> 24) & 0xFF) as bv8
  }

  lemma WordOfLanes(v: bv32)
    ensures Word(Lane0(v), Lane1(v), Lane2(v), Lane3(v)) == v
  {}

  /** The register after a message followed by its own complemented remainder. */
  const RESIDUE: bv32 := 0xDEBB_20E3

  lemma ResidueConstant()
    ensures Bits8(Bits8(Bits8(Bits8(0xFFFF_FFFF)))) == RESIDUE
  {
    Bits8Unrolled(0xFFFF_FFFF);
    var c1 := Unrolled(0xFFFF_FFFF);
    assert c1 == 0x2DFD_1072;
    Bits8Unrolled(c1);
    var c2 := Unrolled(c1);
    assert c2 == 0xBE26_ED00;
    Bits8Unrolled(c2);
    var c3 := Unrolled(c2);
    assert c3 == 0x00BE_26ED;
    Bits8Unrolled(c3);
  }

  lemma XorComplement(c: bv32)
    ensures Xor(Complement(c), c) == 0xFFFF_FFFF
  {}

  lemma ComplementFills(c: bv32, v: bv32)
    ensures Xor(v, c) == 0xFFFF_FFFF <==> v == Complement(c)
  {
    XorComplement(c);
    if Xor(v, c) == 0xFFFF_FFFF {
      Cancel(v, Complement(c), c);
    }
  }

  lemma ComplementInjective(x: bv32, y: bv32)
    requires Complement(x) == Complement(y)
    ensures x == y
  {}
}
