/** Form bodies (section 5.1 of the WHATWG URL Standard, section 2.1 of RFC 3986) and HTML escaping. */
module Form {
  import opened Bytes
  import opened Veils
  import opened Wrappers
  import Utf8

  const AMP: byte := 0x26
  const EQUALS: byte := 0x3D
  const PERCENT: byte := 0x25
  const PLUS: byte := 0x2B
  const SPACE: byte := 0x20

  /** Fields longer than this are cut. */
  const VALUE_MAX := 160

  function Hex(b: byte): (d: Option<byte>)
    ensures d.Some? ==> d.value < 16
  {
    if 0x30 <= b <= 0x39 then Some(b - 0x30)
    else if 0x61 <= b <= 0x66 then Some(b - 0x61 + 10)
    else if 0x41 <= b <= 0x46 then Some(b - 0x41 + 10)
    else None
  }

  /** Whether `s` starts with an escaped byte. */
  predicate Escaped(s: seq<byte>) {
    |s| > 2 && s[0] == PERCENT && Hex(s[1]).Some? && Hex(s[2]).Some?
  }

  function EscapedByte(s: seq<byte>): byte
    requires Escaped(s)
  {
    var h: int := Hex(s[1]).value;
    0x10 * h + Hex(s[2]).value
  }

  function FirstFormula(s: seq<byte>): (byte, nat) {
    if s == [] then (0, 1)
    else if s[0] == PLUS then (SPACE, 1)
    else if Escaped(s) then (EscapedByte(s), 3)
    else (s[0], 1)
  }

  /**
   The byte a text starts with, and how much of the text stands for it. A percent
   sign that starts no escape stands for itself: see `FirstByteIs`.
   */
  function FirstByte(s: seq<byte>): (r: (byte, nat))
    requires s != []
    ensures 1 <= r.1 <= |s|
  {
    Lift(FirstFormula, s, |s|);
    Veil(FirstFormula, s, |s|)
  }

  lemma FirstByteIs(s: seq<byte>)
    requires s != []
    ensures FirstByte(s) == FirstFormula(s)
  {
    Lift(FirstFormula, s, |s|);
  }

  /** `b` is the digit `d` of base sixteen, in small letters or capitals. */
  predicate IsDigit(b: byte, d: nat) {
    d < 16 && (b == "0123456789abcdef"[d] as int || b == "0123456789ABCDEF"[d] as int)
  }

  lemma HexIff(b: byte, d: byte)
    ensures Hex(b) == Some(d) <==> IsDigit(b, d)
  {}

  /** The bytes a text stands for. */
  function Decoded(s: seq<byte>): seq<byte> {
    if s == [] then [] else [FirstByte(s).0] + Decoded(s[FirstByte(s).1..])
  }

  /** A plus stands for a space, and everything else but `%` for itself. */
  lemma DecodedPlain(s: seq<byte>)
    requires s != [] && s[0] != '%' as int
    ensures Decoded(s) == [if s[0] == '+' as int then 0x20 else s[0]] + Decoded(s[1..])
  {
    FirstByteIs(s);
  }

  /** `%` and two digits stand for a byte. */
  lemma DecodedEscape(s: seq<byte>, h: nat, l: nat)
    requires |s| > 2 && s[0] == '%' as int && IsDigit(s[1], h) && IsDigit(s[2], l)
    ensures Decoded(s) == [16 * h + l] + Decoded(s[3..])
  {
    HexIff(s[1], h);
    HexIff(s[2], l);
    FirstByteIs(s);
  }

  /** A stray `%` stands for itself. */
  lemma DecodedStray(s: seq<byte>)
    requires s != [] && s[0] == '%' as int
    requires |s| <= 2 || (forall d: nat :: !IsDigit(s[1], d)) || (forall d: nat :: !IsDigit(s[2], d))
    ensures Decoded(s) == ['%' as int] + Decoded(s[1..])
  {
    NotEscaped(s);
    StandsForItself(s);
  }

  lemma NotEscaped(s: seq<byte>)
    requires |s| <= 2 || (forall d: nat :: !IsDigit(s[1], d)) || (forall d: nat :: !IsDigit(s[2], d))
    ensures !Escaped(s)
  {
    if |s| > 2 {
      NoDigit(s[1]);
      NoDigit(s[2]);
    }
  }

  lemma StandsForItself(s: seq<byte>)
    requires s != [] && s[0] == '%' as int && !Escaped(s)
    ensures Decoded(s) == ['%' as int] + Decoded(s[1..])
  {
    FirstByteIs(s);
  }

  lemma NoDigit(b: byte)
    ensures (forall d: nat :: !IsDigit(b, d)) ==> Hex(b).None?
  {
    if Hex(b).Some? {
      HexIff(b, Hex(b).value);
    }
  }

  function Fitting(s: seq<byte>, room: nat): nat {
    if |s| < room then |s| else room
  }

  /**
   Decodes into `out`: the longest prefix of the decoded bytes that fits and is
   valid UTF-8.
   */
  method PercentDecode(s: seq<byte>, out: array<byte>) returns (n: nat)
    modifies out
    ensures n == Utf8.ValidPrefixLen(Decoded(s), Fitting(Decoded(s), out.Length))
    ensures n <= out.Length && out[..n] == Decoded(s)[..n]
  {
    n := Unpack(s, out);
    ghost var limit := n;
    while n > 0 && !Utf8.Valid(out[..n])
      invariant n <= limit <= out.Length && out[..limit] == Decoded(s)[..limit]
      invariant forall m :: n < m <= limit ==> !Utf8.Valid(Decoded(s)[..m])
    {
      assert out[..n] == out[..limit][..n] == Decoded(s)[..limit][..n] == Decoded(s)[..n];
      n := n - 1;
    }
    assert out[..n] == out[..limit][..n] == Decoded(s)[..limit][..n] == Decoded(s)[..n];
  }

  /** As many decoded bytes as fit. */
  method Unpack(s: seq<byte>, out: array<byte>) returns (n: nat)
    modifies out
    ensures n == Fitting(Decoded(s), out.Length) && out[..n] == Decoded(s)[..n]
  {
    var i := 0;
    n := 0;
    assert s[0..] == s;
    while i < |s| && n < out.Length
      invariant i <= |s| && n <= out.Length
      invariant out[..n] + Decoded(s[i..]) == Decoded(s)
    {
      ghost var before := out[..n];
      var (b, used) := FirstByte(s[i..]);
      assert s[i..][used..] == s[i + used..];
      Regroup(before, [b], Decoded(s[i + used..]));
      Put(out, n, b);
      n := n + 1;
      i := i + used;
    }
    assert i == |s| ==> s[i..] == [];
    assert Decoded(s)[..n] == out[..n];
  }

  method Put(out: array<byte>, n: nat, b: byte)
    requires n < out.Length
    modifies out
    ensures out[..n + 1] == old(out[..n]) + [b]
  {
    out[n] := b;
  }

  lemma Regroup<T>(a: seq<T>, b: seq<T>, c: seq<T>)
    ensures (a + b) + c == a + (b + c)
  {}

  // --- the other direction -------------------------------------------------

  /** Letters, digits and `*-._` are written as they are. */
  predicate Plain(b: byte) {
    || 0x30 <= b <= 0x39 || 0x41 <= b <= 0x5A || 0x61 <= b <= 0x7A
    || b == 0x2A || b == 0x2D || b == 0x2E || b == 0x5F
  }

  function HexDigit(d: byte): (b: byte)
    requires d < 16
    ensures Hex(b) == Some(d) && Plain(b)
  {
    if d < 10 then 0x30 + d else 0x41 + d - 10
  }

  function EncodedByte(b: byte): seq<byte> {
    if b == SPACE then [PLUS]
    else if Plain(b) then [b]
    else [PERCENT, HexDigit(b / 16), HexDigit(b % 16)]
  }

  /** What a browser sends for a text. */
  function Encoded(s: seq<byte>): seq<byte> {
    if s == [] then [] else EncodedByte(s[0]) + Encoded(s[1..])
  }

  /** Decoding undoes encoding, for every byte string. */
  lemma {:induction false} DecodedEncoded(s: seq<byte>)
    ensures Decoded(Encoded(s)) == s
  {
    if s != [] {
      DecodedEncoded(s[1..]);
      var e := EncodedByte(s[0]) + Encoded(s[1..]);
      assert e[|EncodedByte(s[0])|..] == Encoded(s[1..]);
      if s[0] != SPACE && !Plain(s[0]) {
        assert Escaped(e) && EscapedByte(e) == s[0];
      }
      FirstByteIs(e);
      assert FirstByte(e) == (s[0], |EncodedByte(s[0])|);
    }
  }

  /** A text that fits comes out of a form as it went in. */
  lemma DecodesWhatFits(s: seq<byte>, room: nat)
    requires Utf8.Valid(s) && |s| <= room
    ensures Utf8.ValidPrefixLen(Decoded(Encoded(s)), Fitting(Decoded(Encoded(s)), room)) == |s|
  {
    DecodedEncoded(s);
    assert s[..|s|] == s;
  }

  // --- fields --------------------------------------------------------------

  datatype Field = Field(key: seq<byte>, value: seq<byte>)

  /** Where `b` is found first; the length if it is not. */
  function IndexOf(s: seq<byte>, b: byte): (n: nat)
    ensures n <= |s| && b !in s[..n] && (n < |s| ==> s[n] == b)
  {
    if s == [] || s[0] == b then 0
    else
      var n := IndexOf(s[1..], b);
      assert s[..n + 1] == [s[0]] + s[1..][..n];
      n + 1
  }

  /** A value as it is handed over: cut to the longest valid text that fits. */
  function ValueOf(raw: seq<byte>): seq<byte> {
    Utf8.ValidPrefix(Decoded(raw), Fitting(Decoded(raw), VALUE_MAX))
  }

  function FieldFormula(pair: seq<byte>): Field {
    var n := IndexOf(pair, EQUALS);
    Field(pair[..n], ValueOf(if n < |pair| then pair[n + 1..] else []))
  }

  /** A pair split at its first equals sign: see `FieldOfIs`. */
  function FieldOf(pair: seq<byte>): Field {
    Veil(FieldFormula, pair, |pair|)
  }

  lemma FieldOfIs(pair: seq<byte>)
    ensures FieldOf(pair) == FieldFormula(pair)
  {
    Lift(FieldFormula, pair, |pair|);
  }

  /** The fields of a body, in order. Empty pairs are skipped. */
  function Fields(body: seq<byte>): seq<Field> {
    var n := IndexOf(body, AMP);
    if n == |body| then FirstField(body, n) else FirstField(body, n) + Fields(body[n + 1..])
  }

  method ReadField(pair: seq<byte>) returns (f: Field)
    ensures f == FieldOf(pair)
  {
    FieldOfIs(pair);
    var split := IndexOf(pair, EQUALS);
    var raw := if split < |pair| then pair[split + 1..] else [];
    var buf := new byte[VALUE_MAX];
    var len := PercentDecode(raw, buf);
    f := Field(pair[..split], buf[..len]);
  }

  method ReadFields(body: seq<byte>) returns (fields: seq<Field>)
    ensures fields == Fields(body)
  {
    fields := [];
    var rest := body;
    while true
      invariant fields + Fields(rest) == Fields(body)
      decreases |rest|
    {
      var n := IndexOf(rest, AMP);
      ghost var before := fields;
      if n > 0 {
        var field := ReadField(rest[..n]);
        fields := fields + [field];
      }
      assert fields == before + FirstField(rest, n);
      FieldsFrom(before, rest, n);
      if n == |rest| {
        return;
      }
      rest := rest[n + 1..];
    }
  }

  function FirstField(body: seq<byte>, n: nat): seq<Field>
    requires n <= |body|
  {
    if n == 0 then [] else [FieldOf(body[..n])]
  }

  lemma FieldsFrom(before: seq<Field>, body: seq<byte>, n: nat)
    requires n == IndexOf(body, AMP)
    ensures before + Fields(body) ==
      before + FirstField(body, n) + if n == |body| then [] else Fields(body[n + 1..])
  {
    if n < |body| {
      var (first, rest) := (FirstField(body, n), Fields(body[n + 1..]));
      assert Fields(body) == first + rest;
      Regroup(before, first, rest);
    }
  }

  /** What a browser sends for a list of fields. */
  function EncodedPair(f: Field): seq<byte> {
    f.key + [EQUALS] + Encoded(f.value)
  }

  function Joined(pairs: seq<seq<byte>>): seq<byte> {
    if pairs == [] then []
    else if |pairs| == 1 then pairs[0]
    else pairs[0] + [AMP] + Joined(pairs[1..])
  }

  function EncodedForm(fields: seq<Field>): seq<byte> {
    Joined(seq(|fields|, i requires 0 <= i < |fields| => EncodedPair(fields[i])))
  }

  predicate Sendable(f: Field) {
    AMP !in f.key && EQUALS !in f.key && Utf8.Valid(f.value) && |f.value| <= VALUE_MAX
  }

  lemma {:induction false} NoMarkInEncoded(s: seq<byte>)
    ensures AMP !in Encoded(s)
  {
    if s != [] {
      NoMarkInEncoded(s[1..]);
      assert AMP !in EncodedByte(s[0]);
    }
  }

  lemma {:induction false} IndexOfFirst(a: seq<byte>, b: byte, rest: seq<byte>)
    requires b !in a
    ensures IndexOf(a + [b] + rest, b) == |a|
    ensures IndexOf(a, b) == |a|
  {
    if a != [] {
      IndexOfFirst(a[1..], b, rest);
      assert (a + [b] + rest)[1..] == a[1..] + [b] + rest;
    }
  }

  lemma PairReadsBack(f: Field)
    requires Sendable(f)
    ensures FieldOf(EncodedPair(f)) == f && AMP !in EncodedPair(f) && EncodedPair(f) != []
  {
    NoMarkInEncoded(f.value);
    IndexOfFirst(f.key, EQUALS, Encoded(f.value));
    var pair := EncodedPair(f);
    FieldOfIs(pair);
    assert pair[|f.key| + 1..] == Encoded(f.value) && pair[..|f.key|] == f.key;
    DecodesWhatFits(f.value, VALUE_MAX);
    DecodedEncoded(f.value);
  }

  /** The field of one piece; an empty one has none. */
  function Piece(piece: seq<byte>): seq<Field> {
    if piece == [] then [] else [FieldOf(piece)]
  }

  lemma FieldsOfJoin(first: seq<byte>, rest: seq<byte>)
    requires AMP !in first
    ensures Fields(first + [AMP] + rest) == Piece(first) + Fields(rest)
    ensures Fields(first) == Piece(first)
  {
    IndexOfFirst(first, AMP, rest);
    assert (first + [AMP] + rest)[..|first|] == first;
    assert (first + [AMP] + rest)[|first| + 1..] == rest;
    assert first[..|first|] == first;
  }

  /** The fields of a body's pieces, in order. */
  function Found(pieces: seq<seq<byte>>): seq<Field> {
    if pieces == [] then [] else Piece(pieces[0]) + Found(pieces[1..])
  }

  /** A body is read piece by piece between its ampersands. */
  lemma {:induction false} BodyIsPieces(pieces: seq<seq<byte>>)
    requires pieces != [] && forall i :: 0 <= i < |pieces| ==> '&' as int !in pieces[i]
    ensures Fields(Joined(pieces)) == Found(pieces)
  {
    FieldsOfJoin(pieces[0], Joined(pieces[1..]));
    if |pieces| == 1 {
      assert Found(pieces[1..]) == [];
    } else {
      BodyIsPieces(pieces[1..]);
    }
  }

  /** A piece is a key and, behind the first equals sign, the encoded value, cut to 160 bytes; without a sign the value is empty. */
  lemma PieceIs(key: seq<byte>, raw: seq<byte>)
    requires '=' as int !in key
    ensures FieldOf(key + ['=' as int] + raw) == Field(key, Utf8.ValidPrefix(Decoded(raw), Fitting(Decoded(raw), 160)))
    ensures FieldOf(key) == Field(key, [])
  {
    IndexOfFirst(key, EQUALS, raw);
    FieldOfIs(key + ['=' as int] + raw);
    FieldOfIs(key);
    assert (key + ['=' as int] + raw)[..|key|] == key && (key + ['=' as int] + raw)[|key| + 1..] == raw;
  }

  predicate IsPair(pair: seq<byte>) {
    AMP !in pair && pair != []
  }

  /** Joined pairs are found one by one. */
  lemma {:induction false} JoinedReadsBack(pairs: seq<seq<byte>>, fields: seq<Field>)
    requires |pairs| == |fields| && forall i :: 0 <= i < |pairs| ==> IsPair(pairs[i]) && FieldOf(pairs[i]) == fields[i]
    ensures Fields(Joined(pairs)) == fields
  {
    if pairs != [] {
      JoinedReadsBack(pairs[1..], fields[1..]);
      FieldsOfJoin(pairs[0], Joined(pairs[1..]));
      assert fields == [fields[0]] + fields[1..];
    }
  }

  /** Every form of fields that fit is read back field by field. */
  lemma FormReadsBack(fields: seq<Field>)
    requires forall f :: f in fields ==> Sendable(f)
    ensures Fields(EncodedForm(fields)) == fields
  {
    var pairs := seq(|fields|, i requires 0 <= i < |fields| => EncodedPair(fields[i]));
    forall i | 0 <= i < |fields|
      ensures IsPair(pairs[i]) && FieldOf(pairs[i]) == fields[i]
    {
      PairReadsBack(fields[i]);
    }
    JoinedReadsBack(pairs, fields);
  }

  // --- HTML ----------------------------------------------------------------

  const LESS: byte := 0x3C
  const GREATER: byte := 0x3E
  const QUOTE: byte := 0x22
  const APOSTROPHE: byte := 0x27

  const AMP_ENTITY: seq<byte> := [0x26, 0x61, 0x6D, 0x70, 0x3B]
  const LESS_ENTITY: seq<byte> := [0x26, 0x6C, 0x74, 0x3B]
  const GREATER_ENTITY: seq<byte> := [0x26, 0x67, 0x74, 0x3B]
  const QUOTE_ENTITY: seq<byte> := [0x26, 0x71, 0x75, 0x6F, 0x74, 0x3B]
  const APOSTROPHE_ENTITY: seq<byte> := [0x26, 0x23, 0x33, 0x39, 0x3B]

  function EntityFormula(b: byte): seq<byte> {
    if b == AMP then AMP_ENTITY
    else if b == LESS then LESS_ENTITY
    else if b == GREATER then GREATER_ENTITY
    else if b == QUOTE then QUOTE_ENTITY
    else if b == APOSTROPHE then APOSTROPHE_ENTITY
    else [b]
  }

  /** What stands for a byte: see `EntityIs`. */
  function Entity(b: byte): (e: seq<byte>)
    ensures 1 <= |e| <= 6
  {
    Lift(EntityFormula, b, b + 3);
    Veil(EntityFormula, b, b + 3)
  }

  function Ascii(t: string): seq<byte>
    requires forall i :: 0 <= i < |t| ==> t[i] as int < 0x80
  {
    seq(|t|, i requires 0 <= i < |t| => t[i] as int)
  }

  /** The entities by name. */
  lemma EntitiesAre()
    ensures Entity('&' as int) == Ascii("&amp;") && Entity('<' as int) == Ascii("&lt;") && Entity('>' as int) == Ascii("&gt;")
    ensures Entity('\"' as int) == Ascii("&quot;") && Entity('\'' as int) == Ascii("&#39;")
  {
    EntityIs('&' as int);
    EntityIs('<' as int);
    EntityIs('>' as int);
    EntityIs('\"' as int);
    EntityIs('\'' as int);
  }

  lemma EntityIs(b: byte)
    ensures Entity(b) == EntityFormula(b)
  {
    Lift(EntityFormula, b, b + 3);
  }

  function EscapedText(s: seq<byte>): seq<byte> {
    if s == [] then [] else EscapedText(s[..|s| - 1]) + Entity(s[|s| - 1])
  }

  /** Escapes into `out`; fails exactly when the escaped text is longer than `out`. */
  method HtmlEscape(s: seq<byte>, out: array<byte>) returns (r: Option<nat>)
    modifies out
    ensures r.Some? <==> |EscapedText(s)| <= out.Length
    ensures r.Some? ==> r.value == |EscapedText(s)| && out[..r.value] == EscapedText(s)
  {
    var n := 0;
    assert s[..0] == [];
    for i := 0 to |s|
      invariant n == |EscapedText(s[..i])| <= out.Length && out[..n] == EscapedText(s[..i])
    {
      assert s[..i + 1][..i] == s[..i];
      var rep := Entity(s[i]);
      if n + |rep| > out.Length {
        EscapeGrows(s, i + 1);
        return None;
      }
      ghost var before := out[..n];
      forall k | 0 <= k < |rep| {
        out[n + k] := rep[k];
      }
      assert out[..n + |rep|] == before + rep;
      n := n + |rep|;
    }
    assert s[..|s|] == s;
    return Some(n);
  }

  lemma {:induction false} EscapeGrows(s: seq<byte>, i: nat)
    requires i <= |s|
    ensures |EscapedText(s[..i])| <= |EscapedText(s)|
  {
    if i < |s| {
      EscapeGrows(s[..|s| - 1], i);
      assert s[..|s| - 1][..i] == s[..i];
    } else {
      assert s[..i] == s;
    }
  }

  /** The first character of an escaped text, and how many bytes stand for it. */
  function FirstOf(e: seq<byte>): (byte, nat)
    requires e != []
  {
    if AMP_ENTITY <= e then (AMP, 5)
    else if LESS_ENTITY <= e then (LESS, 4)
    else if GREATER_ENTITY <= e then (GREATER, 4)
    else if QUOTE_ENTITY <= e then (QUOTE, 6)
    else if APOSTROPHE_ENTITY <= e then (APOSTROPHE, 5)
    else (e[0], 1)
  }

  function Unescaped(e: seq<byte>): seq<byte> {
    if e == [] then [] else
      var (b, n) := FirstOf(e);
      [b] + Unescaped(e[n..])
  }

  lemma EntityFirst(b: byte, rest: seq<byte>)
    ensures FirstOf(Entity(b) + rest) == (b, |Entity(b)|)
  {
    EntityIs(b);
    var e := Entity(b) + rest;
    if b == AMP {
      assert AMP_ENTITY <= e;
    } else if b == LESS {
      assert e[1] == 0x6C && LESS_ENTITY <= e;
    } else if b == GREATER {
      assert e[1] == 0x67 && GREATER_ENTITY <= e;
    } else if b == QUOTE {
      assert e[1] == 0x71 && QUOTE_ENTITY <= e;
    } else if b == APOSTROPHE {
      assert e[1] == 0x23 && APOSTROPHE_ENTITY <= e;
    } else {
      assert e[0] == b;
    }
  }

  lemma EscapedLast(s: seq<byte>, b: byte)
    ensures EscapedText(s + [b]) == EscapedText(s) + Entity(b)
  {
    assert (s + [b])[..|s|] == s;
  }

  lemma {:induction false} EscapedHead(b: byte, s: seq<byte>)
    ensures EscapedText([b] + s) == Entity(b) + EscapedText(s)
  {
    if s == [] {
      EscapedLast([], b);
      assert [] + [b] == [b] + s;
    } else {
      var init, last := s[..|s| - 1], s[|s| - 1];
      EscapedHead(b, init);
      EscapedLast([b] + init, last);
      assert [b] + init + [last] == [b] + s;
      Regroup(Entity(b), EscapedText(init), Entity(last));
    }
  }

  /** Escaping loses nothing. */
  lemma {:induction false} UnescapedEscaped(s: seq<byte>)
    ensures Unescaped(EscapedText(s)) == s
  {
    if s != [] {
      var rest := EscapedText(s[1..]);
      assert [s[0]] + s[1..] == s;
      EscapedHead(s[0], s[1..]);
      UnescapedEscaped(s[1..]);
      UnescapedFirst(s[0], rest);
    }
  }

  lemma UnescapedFirst(b: byte, rest: seq<byte>)
    ensures Unescaped(Entity(b) + rest) == [b] + Unescaped(rest)
  {
    EntityFirst(b, rest);
    assert (Entity(b) + rest)[|Entity(b)|..] == rest;
  }

  predicate Markup(b: byte) {
    b == LESS || b == GREATER || b == QUOTE || b == APOSTROPHE
  }

  lemma EntityIsSafe(b: byte)
    ensures forall c :: c in Entity(b) ==> !Markup(c)
  {
    EntityIs(b);
  }

  /** Nothing is left raw that HTML reads as markup. */
  lemma {:induction false} EscapedIsSafe(s: seq<byte>)
    ensures forall c :: c in EscapedText(s) ==> !Markup(c)
  {
    if s != [] {
      EscapedIsSafe(s[..|s| - 1]);
      EntityIsSafe(s[|s| - 1]);
    }
  }
}
