/** Texts in a buffer of their own, which keeps stale bytes behind them. */
module FixedStrs {
  import opened Bytes
  import Utf8

  /**
   `buf` has the capacity as its length; only the first `len` bytes are text.
   Equality of values compares the whole buffer, stale bytes included, as the
   derived comparison of the original does; `Text` is what a reader sees.
   */
  datatype FixedStr = FixedStr(buf: seq<byte>, len: nat) {

    predicate Wf(capacity: nat) {
      && |buf| == capacity
      && len <= capacity
      && Utf8.Valid(buf[..len])
    }

    function Text(): seq<byte>
      requires len <= |buf|
    {
      buf[..len]
    }

    predicate IsEmpty() {
      len == 0
    }

    /** Forgets the text; the buffer keeps its bytes. */
    function Cleared(): (f: FixedStr)
      ensures forall n :: Wf(n) ==> f.Wf(n) && f.Text() == []
    {
      this.(len := 0)
    }
  }

  function Empty(capacity: nat): (f: FixedStr)
    ensures f.Wf(capacity) && f.Text() == []
  {
    FixedStr(Repeat(0, capacity), 0)
  }

  /** How much of `s` can be appended: as many whole characters as fit. */
  function Fitting(f: FixedStr, s: seq<byte>): (n: nat)
    requires f.len <= |f.buf|
    ensures n <= |s| && f.len + n <= |f.buf| && Utf8.Valid(s[..n])
  {
    var room := |f.buf| - f.len;
    Utf8.ValidPrefixLen(s, if |s| < room then |s| else room)
  }

  /** The first `n` bytes of `s` put after the text, over the old bytes; the rest of the buffer is untouched. */
  function Joined(f: FixedStr, s: seq<byte>, n: nat): FixedStr
    requires n <= |s| && f.len + n <= |f.buf|
  {
    FixedStr(f.buf[..f.len] + s[..n] + f.buf[f.len + n..], f.len + n)
  }

  /** The string after appending `s`. */
  function Pushed(f: FixedStr, s: seq<byte>): FixedStr
    requires f.len <= |f.buf|
  {
    Joined(f, s, Fitting(f, s))
  }

  /** `set`: what is left of `s` after cutting it to the capacity. */
  function Replaced(f: FixedStr, s: seq<byte>): FixedStr {
    Pushed(f.Cleared(), s)
  }

  lemma JoinedText(f: FixedStr, s: seq<byte>, n: nat)
    requires n <= |s| && f.len + n <= |f.buf|
    ensures |Joined(f, s, n).buf| == |f.buf| && Joined(f, s, n).Text() == f.Text() + s[..n]
  {}

  lemma JoinedWf(f: FixedStr, s: seq<byte>, n: nat)
    requires f.Wf(|f.buf|) && n <= |s| && f.len + n <= |f.buf| && Utf8.Valid(s[..n])
    ensures Joined(f, s, n).Wf(|f.buf|)
  {
    JoinedText(f, s, n);
    Utf8.ValidConcat(f.Text(), s[..n]);
  }

  lemma ReplacedWf(f: FixedStr, s: seq<byte>)
    requires f.Wf(|f.buf|)
    ensures Replaced(f, s).Wf(|f.buf|)
  {
    JoinedWf(f.Cleared(), s, Fitting(f.Cleared(), s));
  }

  lemma TailStays(f: FixedStr, s: seq<byte>, n: nat)
    requires n <= |s| && f.len + n <= |f.buf|
    ensures Joined(f, s, n).buf[f.len + n..] == f.buf[f.len + n..]
  {}

  /** What was put in: the longest piece of whole characters that fits, behind the text; the bytes behind it are the old ones. */
  lemma PushedIs(f: FixedStr, s: seq<byte>) returns (n: nat)
    requires f.Wf(|f.buf|)
    ensures n <= |s| && f.len + n <= |f.buf| && Utf8.Valid(s[..n])
    ensures Pushed(f, s).Text() == f.Text() + s[..n] && Pushed(f, s).buf[f.len + n..] == f.buf[f.len + n..]
    ensures forall m :: n < m <= |s| && f.len + m <= |f.buf| ==> !Utf8.Valid(s[..m])
  {
    n := Fitting(f, s);
    JoinedText(f, s, n);
    TailStays(f, s, n);
  }

  /** The same over a text that is replaced. */
  lemma ReplacedIs(f: FixedStr, s: seq<byte>) returns (n: nat)
    requires f.Wf(|f.buf|)
    ensures n <= |s| && n <= |f.buf| && Utf8.Valid(s[..n])
    ensures Replaced(f, s).len == n && Replaced(f, s).Text() == s[..n] && Replaced(f, s).buf[n..] == f.buf[n..]
    ensures forall m :: n < m <= |s| && m <= |f.buf| ==> !Utf8.Valid(s[..m])
  {
    n := PushedIs(f.Cleared(), s);
  }

  /** The last character boundary up to `limit`. */
  method BoundaryBefore(s: seq<byte>, limit: nat) returns (n: nat)
    requires Utf8.Valid(s) && limit <= |s|
    ensures n <= limit && (n == 0 || Utf8.IsBoundary(s, n))
    ensures forall m: nat :: n < m <= limit ==> !Utf8.IsBoundary(s, m)
  {
    n := limit;
    while n > 0 && !Utf8.IsBoundary(s, n)
      invariant n <= limit
      invariant forall m: nat :: n < m <= limit ==> !Utf8.IsBoundary(s, m)
    {
      n := n - 1;
    }
  }

  /** Appends `s`, cut at a character boundary. `whole` is false if it was cut. */
  method PushStr(f: FixedStr, s: seq<byte>) returns (g: FixedStr, whole: bool)
    requires f.Wf(|f.buf|) && Utf8.Valid(s)
    ensures g.Wf(|f.buf|) && g == Pushed(f, s)
    ensures whole <==> g.Text() == f.Text() + s
  {
    var room := |f.buf| - f.len;
    var limit := if |s| < room then |s| else room;
    var n := BoundaryBefore(s, limit);
    CutIsLongest(s, limit, n);
    WhatWasPushed(f, s, n);
    g := Joined(f, s, n);
    whole := n == |s|;
  }

  lemma WhatWasPushed(f: FixedStr, s: seq<byte>, n: nat)
    requires f.Wf(|f.buf|) && n <= |s| && f.len + n <= |f.buf| && Utf8.Valid(s[..n])
    ensures Joined(f, s, n).Wf(|f.buf|) && (n == |s| <==> Joined(f, s, n).Text() == f.Text() + s)
  {
    JoinedText(f, s, n);
    JoinedWf(f, s, n);
    SamePiece(f.Text(), s, n);
  }

  lemma SamePiece(text: seq<byte>, s: seq<byte>, n: nat)
    requires n <= |s|
    ensures n == |s| <==> text + s[..n] == text + s
  {
    if n == |s| {
      assert s[..n] == s;
    } else {
      assert |text + s[..n]| != |text + s|;
    }
  }

  /** Replaces the text; stale bytes of a longer text stay in the buffer. */
  method Set(f: FixedStr, s: seq<byte>) returns (g: FixedStr, whole: bool)
    requires f.Wf(|f.buf|) && Utf8.Valid(s)
    ensures g.Wf(|f.buf|) && g == Replaced(f, s)
    ensures whole <==> g.Text() == s
  {
    g, whole := PushStr(f.Cleared(), s);
    assert f.Cleared().Text() + s == s;
  }

  /** Walking back to a boundary finds the longest valid prefix that fits. */
  lemma CutIsLongest(s: seq<byte>, limit: nat, n: nat)
    requires Utf8.Valid(s) && n <= limit <= |s|
    requires n == 0 || Utf8.IsBoundary(s, n)
    requires forall m: nat :: n < m <= limit ==> !Utf8.IsBoundary(s, m)
    ensures n == Utf8.ValidPrefixLen(s, limit)
    ensures Utf8.Valid(s[..n])
  {
    Utf8.BoundaryIffValidPrefix(s, n);
    var k := Utf8.ValidPrefixLen(s, limit);
    Utf8.BoundaryIffValidPrefix(s, k);
    assert Utf8.IsBoundary(s, k);
  }

  /** Equal values show equal text, but equal text needs equal stale bytes too. */
  lemma EqualIffTextAndTail(f: FixedStr, g: FixedStr, capacity: nat)
    requires f.Wf(capacity) && g.Wf(capacity)
    ensures f == g <==> f.Text() == g.Text() && f.buf[f.len..] == g.buf[g.len..]
  {
    if f.Text() == g.Text() && f.buf[f.len..] == g.buf[g.len..] {
      assert |f.Text()| == |g.Text()|;
      assert f.buf == f.buf[..f.len] + f.buf[f.len..];
      assert g.buf == g.buf[..g.len] + g.buf[g.len..];
    }
  }
}
