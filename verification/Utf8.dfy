/** UTF-8 byte sequences as section 4 of RFC 3629 defines them. */
module Utf8 {
  import opened Bytes

  predicate IsTail(b: byte) {
    0x80 <= b <= 0xBF
  }

  /** Length of the character `s` starts with, or 0 if it starts with none. */
  function CharLen(s: seq<byte>): (n: nat)
    ensures n <= |s| && n <= 4
  {
    if |s| >= 1 && s[0] <= 0x7F then 1
    else if |s| >= 2 && 0xC2 <= s[0] <= 0xDF && IsTail(s[1]) then 2
    else if |s| >= 3 && ThreeByteLead(s[0], s[1]) && IsTail(s[2]) then 3
    else if |s| >= 4 && FourByteLead(s[0], s[1]) && IsTail(s[2]) && IsTail(s[3]) then 4
    else 0
  }

  predicate ThreeByteLead(a: byte, b: byte) {
    || (a == 0xE0 && 0xA0 <= b <= 0xBF)
    || (0xE1 <= a <= 0xEC && IsTail(b))
    || (a == 0xED && 0x80 <= b <= 0x9F)
    || (0xEE <= a <= 0xEF && IsTail(b))
  }

  predicate FourByteLead(a: byte, b: byte) {
    || (a == 0xF0 && 0x90 <= b <= 0xBF)
    || (0xF1 <= a <= 0xF3 && IsTail(b))
    || (a == 0xF4 && 0x80 <= b <= 0x8F)
  }

  predicate Valid(s: seq<byte>) {
    s == [] || (CharLen(s) > 0 && Valid(s[CharLen(s)..]))
  }

  /** Where a string may be cut: what `str::is_char_boundary` tests. */
  predicate IsBoundary(s: seq<byte>, n: nat) {
    n == 0 || n == |s| || (n < |s| && !IsTail(s[n]))
  }

  /** Length of the longest valid prefix of `s` of at most `n` bytes. */
  function ValidPrefixLen(s: seq<byte>, n: nat): (k: nat)
    requires n <= |s|
    ensures k <= n && Valid(s[..k])
    ensures forall m :: k < m <= n ==> !Valid(s[..m])
  {
    if Valid(s[..n]) then n else ValidPrefixLen(s, n - 1)
  }

  function ValidPrefix(s: seq<byte>, n: nat): seq<byte>
    requires n <= |s|
  {
    s[..ValidPrefixLen(s, n)]
  }

  // --- concatenation and cutting -------------------------------------------

  lemma CharLenExtends(s: seq<byte>, t: seq<byte>)
    requires CharLen(s) > 0
    ensures CharLen(s + t) == CharLen(s)
  {}

  lemma DropOfConcat(s: seq<byte>, t: seq<byte>, n: nat)
    requires n <= |s|
    ensures (s + t)[n..] == s[n..] + t
  {}

  lemma {:induction false} ValidConcat(s: seq<byte>, t: seq<byte>)
    requires Valid(s) && Valid(t)
    ensures Valid(s + t)
  {
    if s == [] {
      assert s + t == t;
    } else {
      var n := CharLen(s);
      ValidConcat(s[n..], t);
      CharLenExtends(s, t);
      DropOfConcat(s, t, n);
    }
  }

  /** Inside a character every byte is a continuation byte; the first is none. */
  lemma CharShape(s: seq<byte>)
    requires CharLen(s) > 0
    ensures !IsTail(s[0])
    ensures forall i :: 1 <= i < CharLen(s) ==> IsTail(s[i])
  {}

  /** No proper prefix of one character is itself a string. */
  lemma PartOfCharInvalid(s: seq<byte>, n: nat)
    requires 0 < n < CharLen(s)
    ensures !Valid(s[..n])
  {}

  /** The places where a valid string may be cut are exactly its character boundaries. */
  lemma {:induction false} BoundaryIffValidPrefix(s: seq<byte>, n: nat)
    requires Valid(s) && n <= |s|
    ensures IsBoundary(s, n) <==> Valid(s[..n])
    ensures IsBoundary(s, n) ==> Valid(s[n..])
    decreases |s|
  {
    if n == 0 {
      assert s[0..] == s;
    } else if n == |s| {
      assert s[..n] == s;
    } else {
      var k := CharLen(s);
      CharShape(s);
      if n < k {
        PartOfCharInvalid(s, n);
      } else {
        var rest := s[k..];
        BoundaryIffValidPrefix(rest, n - k);
        assert s[..n][k..] == rest[..n - k];
        CharLenExtends(s[..k], s[k..n]);
        assert s[..k] + s[k..n] == s[..n];
        assert s[..k] + s[k..] == s;
        CharLenOfPrefix(s);
        assert s[n..] == rest[n - k..];
        if n == k {
          assert s[..n][k..] == [];
        } else {
          assert IsBoundary(s, n) == IsBoundary(rest, n - k);
        }
        if n == k && rest != [] {
          CharShape(rest);
        }
      }
    }
  }

  lemma CharLenOfPrefix(s: seq<byte>)
    requires CharLen(s) > 0
    ensures CharLen(s[..CharLen(s)]) == CharLen(s)
  {}

  // --- what is encoded -----------------------------------------------------

  /** A code point that may be encoded: any but the surrogates. */
  predicate Scalar(c: nat) {
    c < 0xD800 || 0xE000 <= c < 0x11_0000
  }

  predicate Scalars(cs: seq<nat>) {
    forall i :: 0 <= i < |cs| ==> Scalar(cs[i])
  }

  /** The bits of a scalar value, six to a continuation byte, as section 3 of RFC 3629 lays them out. */
  function Encode(c: nat): (b: seq<byte>)
    requires Scalar(c)
  {
    if c < 0x80 then [c]
    else if c < 0x800 then [0xC0 + c / 0x40, 0x80 + c % 0x40]
    else if c < 0x1_0000 then [0xE0 + c / 0x1000, 0x80 + c / 0x40 % 0x40, 0x80 + c % 0x40]
    else [0xF0 + c / 0x4_0000, 0x80 + c / 0x1000 % 0x40, 0x80 + c / 0x40 % 0x40, 0x80 + c % 0x40]
  }

  function EncodeAll(cs: seq<nat>): seq<byte>
    requires Scalars(cs)
  {
    if cs == [] then [] else Encode(cs[0]) + EncodeAll(cs[1..])
  }

  predicate Encodes(cs: seq<nat>, s: seq<byte>) {
    Scalars(cs) && EncodeAll(cs) == s
  }

  lemma EncodedIsChar(c: nat, rest: seq<byte>)
    requires Scalar(c)
    ensures CharLen(Encode(c) + rest) == |Encode(c)| > 0
  {
    var b := Encode(c);
    assert forall i :: 0 <= i < |b| ==> (b + rest)[i] == b[i];
  }

  /** Six bits more. */
  function Joined(c: int, tail: int): int {
    0x40 * c + tail - 0x80
  }

  /** The scalar value of the character that `s` starts with. */
  function First(s: seq<byte>): int
    requires CharLen(s) > 0
  {
    if CharLen(s) == 1 then s[0]
    else if CharLen(s) == 2 then Joined(s[0] - 0xC0, s[1])
    else if CharLen(s) == 3 then Joined(Joined(s[0] - 0xE0, s[1]), s[2])
    else Joined(Joined(Joined(s[0] - 0xF0, s[1]), s[2]), s[3])
  }

  lemma JoinedSplits(c: int, tail: int)
    requires 0 <= c && 0x80 <= tail <= 0xBF
    ensures Joined(c, tail) / 0x40 == c && 0x80 + Joined(c, tail) % 0x40 == tail
  {}

  lemma Shifted(c: nat)
    ensures c / 0x1000 == c / 0x40 / 0x40 && c / 0x4_0000 == c / 0x40 / 0x40 / 0x40
  {}

  lemma CharIsEncoded(s: seq<byte>)
    requires CharLen(s) > 0
    ensures First(s) >= 0 && Scalar(First(s)) && Encode(First(s)) == s[..CharLen(s)]
  {
    if CharLen(s) == 2 {
      JoinedSplits(s[0] - 0xC0, s[1]);
    } else if CharLen(s) == 3 {
      ThreeBytes(s);
    } else if CharLen(s) == 4 {
      FourBytes(s);
    }
  }

  lemma ThreeBytes(s: seq<byte>)
    requires CharLen(s) == 3
    ensures First(s) >= 0 && Scalar(First(s)) && Encode(First(s)) == s[..3]
  {
    var two := Joined(s[0] - 0xE0, s[1]);
    JoinedSplits(s[0] - 0xE0, s[1]);
    JoinedSplits(two, s[2]);
    Shifted(First(s));
  }

  lemma FourBytes(s: seq<byte>)
    requires CharLen(s) == 4
    ensures First(s) >= 0 && Scalar(First(s)) && Encode(First(s)) == s[..4]
  {
    var two := Joined(s[0] - 0xF0, s[1]);
    var three := Joined(two, s[2]);
    JoinedSplits(s[0] - 0xF0, s[1]);
    JoinedSplits(two, s[2]);
    JoinedSplits(three, s[3]);
    Shifted(First(s));
  }

  lemma {:induction false} EncodedIsValid(cs: seq<nat>)
    requires Scalars(cs)
    ensures Valid(EncodeAll(cs))
  {
    if cs != [] {
      EncodedIsValid(cs[1..]);
      EncodedIsChar(cs[0], EncodeAll(cs[1..]));
      assert EncodeAll(cs)[|Encode(cs[0])|..] == EncodeAll(cs[1..]);
    }
  }

  lemma SplitAt(s: seq<byte>, n: nat)
    requires n <= |s|
    ensures s[..n] + s[n..] == s
  {}

  lemma {:induction false} ValidIsEncoded(s: seq<byte>) returns (cs: seq<nat>)
    requires Valid(s)
    ensures Encodes(cs, s)
  {
    if s == [] {
      cs := [];
    } else {
      var n := CharLen(s);
      SplitAt(s, n);
      var rest := ValidIsEncoded(s[n..]);
      CharIsEncoded(s);
      cs := [First(s)] + rest;
      assert cs[1..] == rest;
    }
  }

  /** A text is valid if and only if it is the encoding of some scalar values. */
  lemma ValidIff(s: seq<byte>)
    ensures Valid(s) <==> exists cs :: Encodes(cs, s)
  {
    if Valid(s) {
      var cs := ValidIsEncoded(s);
    }
    forall cs | Encodes(cs, s) ensures Valid(s) {
      EncodedIsValid(cs);
    }
  }
}
